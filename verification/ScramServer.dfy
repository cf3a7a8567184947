/** The other side of the exchange: the verifier that internal/dbprov/admin.go stores, and a server
    that holds nothing else, written from RFC 5802, sections 3, 5 and 7. Agreement of the two
    packages is proved here. */
module ScramServer {
  import opened Text
  import opened Frame
  import opened Scram
  import Base64

  // ---------------------------------------------------------------- the stored verifier

  datatype Verifier = Verifier(iterations: int, salt: bytes, storedKey: bytes, serverKey: bytes)

  function MakeVerifier(hs: Hashes, password: bytes, salt: bytes, iterations: int): Verifier
  {
    var salted := hs.Hi(password, salt, iterations);
    Verifier(iterations, salt, hs.H(hs.HMAC(salted, "Client Key")), hs.HMAC(salted, "Server Key"))
  }

  function VerifierText(v: Verifier): bytes
  {
    "SCRAM-SHA-256" + "$" + (FormatInt(v.iterations) + ":" + Std64(v.salt)) + "$" + (Std64(v.storedKey) + ":" + Std64(v.serverKey))
  }

  /** scramVerifier: the text handed to CREATE ROLE ... PASSWORD for a freshly drawn salt. */
  function ScramVerifier(hs: Hashes, password: bytes, salt: bytes): bytes
  {
    VerifierText(MakeVerifier(hs, password, salt, 4096))
  }

  /** How PostgreSQL reads a stored SCRAM-SHA-256 secret. */
  function ReadVerifier(text: bytes): Option<Verifier>
  {
    var fields := Split(text, '$');
    if |fields| != 3 || fields[0] != "SCRAM-SHA-256" then None
    else
      var a, b := Split(fields[1], ':'), Split(fields[2], ':');
      if |a| != 2 || |b| != 2 then None
      else
        match (ParseInt(a[0]), ReadStd64(a[1]), ReadStd64(b[0]), ReadStd64(b[1]))
        case (Some(n), Some(salt), Some(stored), Some(server)) => Some(Verifier(n, salt, stored, server))
        case _ => None
  }

  lemma SplitTwo(a: bytes, b: bytes, sep: byte)
    requires sep !in a && sep !in b
    ensures Split(a + [sep] + b, sep) == [a, b]
  {
    SplitCons(a, sep, b);
    SplitClean(b, sep);
  }

  lemma SplitFields(a: bytes, b: bytes, c: bytes, sep: byte)
    requires sep !in a && sep !in b && sep !in c
    ensures Split(a + [sep] + b + [sep] + c, sep) == [a, b, c]
  {
    JoinThree(a, b, c, sep);
    SplitThree(a, b, c, sep);
    SplitClean(c, sep);
  }

  /** The stored text loses nothing. */
  lemma VerifierRoundTrip(v: Verifier)
    requires MIN_INT64 <= v.iterations <= MAX_INT64
    ensures ReadVerifier(VerifierText(v)) == Some(v)
  {
    var a, b := FormatInt(v.iterations) + ":" + Std64(v.salt), Std64(v.storedKey) + ":" + Std64(v.serverKey);
    FormatIntChars(v.iterations);
    Std64Avoids(v.salt, '$');
    Std64Avoids(v.salt, ':');
    Std64Avoids(v.storedKey, '$');
    Std64Avoids(v.storedKey, ':');
    Std64Avoids(v.serverKey, '$');
    Std64Avoids(v.serverKey, ':');
    SplitFields(MECHANISM, a, b, '$');
    SplitTwo(FormatInt(v.iterations), Std64(v.salt), ':');
    SplitTwo(Std64(v.storedKey), Std64(v.serverKey), ':');
    ParseFormatInt(v.iterations);
    Base64.RoundTrip(v.salt, Base64.Std);
    Base64.RoundTrip(v.storedKey, Base64.Std);
    Base64.RoundTrip(v.serverKey, Base64.Std);
  }

  // ---------------------------------------------------------------- the server

  /** The name, the nonce and the bare message in a client-first-message. */
  function ReadClientFirst(wire: bytes): Option<(bytes, bytes, bytes)>
  {
    if !("n,," <= wire) then None
    else
      var bare := wire[3..];
      var parts := Split(bare, ',');
      if |parts| != 2 || !("n=" <= parts[0]) || !("r=" <= parts[1]) then None
      else
        match SaslUnescape(parts[0][2..])
        case None => None
        case Some(user) => Some((user, parts[1][2..], bare))
  }

  function ServerFirstText(nonce: bytes, salt: bytes, iterations: int): bytes
  {
    "r=" + nonce + "," + ("s=" + Std64(salt)) + "," + ("i=" + FormatInt(iterations))
  }

  /** Section 3: ClientKey := ClientProof XOR ClientSignature must hash to StoredKey, and the final
      message must repeat the channel binding and the nonce. */
  predicate ServerAccepts(hs: Hashes, v: Verifier, bare: bytes, nonce: bytes, serverFirst: bytes, final: bytes)
  {
    var parts := Split(final, ',');
    && |parts| == 3
    && parts[0] == "c=" + Std64("n,,")
    && parts[1] == "r=" + nonce
    && "p=" <= parts[2]
    && var proof := ReadStd64(parts[2][2..]);
    && proof.Some? && |proof.value| == 32
    && var auth := bare + "," + serverFirst + "," + (parts[0] + "," + parts[1]);
    && hs.H(Xor(proof.value, hs.HMAC(v.storedKey, auth))) == v.storedKey
  }

  function ServerFinalText(hs: Hashes, v: Verifier, auth: bytes): bytes
  {
    "v=" + Std64(hs.HMAC(v.serverKey, auth))
  }

  /** The mechanism and the response in a SASLInitialResponse: a NUL-terminated name, a four-byte length
      and exactly that many bytes. */
  function ReadInitialResponse(payload: bytes): Option<(bytes, bytes)>
  {
    var i := IndexOf(payload, NUL);
    if |payload| < i + 5 then None
    else
      var n := FromBigEndian32(payload[i + 1..i + 5]);
      if |payload| != i + 5 + n then None else Some((payload[..i], payload[i + 5..]))
  }

  lemma SlicesOfFour(a: bytes, c: byte, b: bytes, d: bytes)
    ensures var s := a + [c] + b + d;
            s == a + [c] + (b + d) && s[..|a|] == a && s[|a| + 1..|a| + 1 + |b|] == b && s[|a| + 1 + |b|..] == d
  {
  }

  /** The server recovers mechanism and response exactly when the response's length fits 32 bits. */
  lemma InitialResponseReadBack(mechanism: bytes, response: bytes)
    requires NUL !in mechanism
    ensures ReadInitialResponse(InitialResponse(mechanism, response)) == Some((mechanism, response)) <==> |response| < TWO_32
  {
    var length := BigEndian32(|response|);
    SlicesOfFour(mechanism, NUL, length, response);
    IndexOfFirst(mechanism, NUL, length + response);
    BigEndian32Value(|response|);
  }

  // ---------------------------------------------------------------- agreement

  /** A drawn nonce (18 random bytes in base64) has no comma. */
  lemma NonceCommaFree(drawn: bytes)
    ensures ',' !in Std64(drawn)
  {
    Std64Avoids(drawn, ',');
  }

  /** The server reads back exactly the name and nonce the client sent, whatever the name holds. */
  lemma ClientFirstReadBack(user: bytes, nonce: bytes)
    requires ',' !in nonce
    ensures ReadClientFirst(GS2_HEADER + FirstBare(user, nonce)) == Some((user, nonce, FirstBare(user, nonce)))
  {
    SaslEscapeRoundTrip(user);
    var n: bytes, r: bytes := "n=" + SaslEscape(user), "r=" + nonce;
    SplitTwo(n, r, ',');
    assert FirstBare(user, nonce) == n + [','] + r;
    assert (GS2_HEADER + FirstBare(user, nonce))[3..] == FirstBare(user, nonce);
    assert n[2..] == SaslEscape(user) && r[2..] == nonce;
  }

  lemma ReadThree(r: bytes, s: bytes, i: bytes, a1: Attributes, a2: Attributes)
    requires ReadAttribute(r, NO_ATTRIBUTES) == Some(a1)
    requires ReadAttribute(s, a1) == Some(a2)
    ensures ReadAttributes([r, s, i], NO_ATTRIBUTES) == ReadAttribute(i, a2)
  {
    assert [r, s, i][1..] == [s, i] && [s, i][1..] == [i] && [i][1..] == [];
    assert ReadAttributes([i], a2) == ReadAttribute(i, a2);
    assert ReadAttributes([s, i], a1) == ReadAttributes([i], a2);
  }

  lemma SaltReadBack(salt: bytes, a: Attributes)
    ensures ReadAttribute("s=" + Std64(salt), a) == Some(a.(salt := Some(salt)))
  {
    var s: bytes := "s=" + Std64(salt);
    assert s[2..] == Std64(salt);
    Base64.RoundTrip(salt, Base64.Std);
  }

  lemma CountReadBack(iterations: int, a: Attributes)
    ensures ReadAttribute("i=" + FormatInt(iterations), a)
         == if MIN_INT64 <= iterations <= MAX_INT64 then Some(a.(iterations := iterations)) else None
  {
    var i: bytes := "i=" + FormatInt(iterations);
    assert i[2..] == FormatInt(iterations);
    ParseFormatInt(iterations);
  }

  /** The client reads back exactly the nonce, salt and count the server printed; the message is
      refused exactly when the nonce is empty or the count is not a positive 64-bit integer. */
  lemma ServerFirstReadBack(nonce: bytes, salt: bytes, iterations: int)
    requires ',' !in nonce
    ensures ParseServerFirst(ServerFirstText(nonce, salt, iterations))
         == if nonce != [] && 1 <= iterations <= MAX_INT64 then Some(ServerFirst(nonce, salt, iterations)) else None
  {
    var r: bytes, s: bytes, i: bytes := "r=" + nonce, "s=" + Std64(salt), "i=" + FormatInt(iterations);
    Std64Avoids(salt, ',');
    FormatIntChars(iterations);
    SplitFields(r, s, i, ',');
    assert r[2..] == nonce;
    var a1 := NO_ATTRIBUTES.(nonce := nonce);
    var a2 := a1.(salt := Some(salt));
    SaltReadBack(salt, a1);
    CountReadBack(iterations, a2);
    ReadThree(r, s, i, a1, a2);
  }

  lemma FinalMessageParts(nonce: bytes, proof: bytes)
    requires ',' !in nonce
    ensures Split(WithoutProof(nonce) + ",p=" + Std64(proof), ',')
         == ["c=" + Std64(GS2_HEADER), "r=" + nonce, "p=" + Std64(proof)]
  {
    var c: bytes, r: bytes, p: bytes := "c=" + Std64(GS2_HEADER), "r=" + nonce, "p=" + Std64(proof);
    Std64Avoids(GS2_HEADER, ',');
    Std64Avoids(proof, ',');
    SplitFields(c, r, p, ',');
    assert WithoutProof(nonce) + ",p=" + Std64(proof) == c + [','] + r + [','] + p;
  }

  /** The proof of a client that knows the password turns back into the key the server stored the
      hash of. */
  lemma ProofRevealsClientKey(hs: Hashes, password: bytes, salt: bytes, iterations: int, nonce: bytes, auth: bytes)
    ensures var v := MakeVerifier(hs, password, salt, iterations);
            var proof := ClientProof(hs, password, ServerFirst(nonce, salt, iterations), auth);
            |proof| == 32 && hs.H(Xor(proof, hs.HMAC(v.storedKey, auth))) == v.storedKey
  {
    var clientKey := hs.HMAC(hs.Hi(password, salt, iterations), CLIENT_KEY);
    XorInvolution(clientKey, hs.HMAC(hs.H(clientKey), auth));
  }

  /** The server accepts the final message of a client that read its server-first-message. */
  lemma ServerAcceptsClient(hs: Hashes, user: bytes, password: bytes, salt: bytes, iterations: int,
                            clientNonce: bytes, nonce: bytes)
    requires ',' !in nonce
    ensures var v := MakeVerifier(hs, password, salt, iterations);
            var bare := FirstBare(user, clientNonce);
            var raw := ServerFirstText(nonce, salt, iterations);
            ServerAccepts(hs, v, bare, nonce, raw, FinalMessage(hs, password, bare, ServerFirst(nonce, salt, iterations), raw))
  {
    var bare := FirstBare(user, clientNonce);
    var raw := ServerFirstText(nonce, salt, iterations);
    var sf := ServerFirst(nonce, salt, iterations);
    var auth := AuthMessage(bare, raw, nonce);
    var proof := ClientProof(hs, password, sf, auth);
    FinalMessageParts(nonce, proof);
    Base64.RoundTrip(proof, Base64.Std);
    ProofRevealsClientKey(hs, password, salt, iterations, nonce, auth);
    var p: bytes := "p=" + Std64(proof);
    assert p[2..] == Std64(proof);
    AuthFromParts(bare, raw, nonce);
  }

  /** The server's AuthMessage, put together from the final message's parts, is the client's. */
  lemma AuthFromParts(bare: bytes, raw: bytes, nonce: bytes)
    ensures AuthMessage(bare, raw, nonce) == bare + "," + raw + "," + (("c=" + Std64(GS2_HEADER)) + "," + ("r=" + nonce))
  {
    assert WithoutProof(nonce) == ("c=" + Std64(GS2_HEADER)) + "," + ("r=" + nonce);
  }

  /** The client accepts a server-final-message exactly when its text decodes to the signature that
      the holder of the verifier computes over the same exchange. */
  lemma ClientAcceptsServer(hs: Hashes, password: bytes, salt: bytes, iterations: int, bare: bytes, nonce: bytes, raw: bytes, text: bytes)
    ensures var v := MakeVerifier(hs, password, salt, iterations);
            var expected := ExpectedSignature(hs, password, bare, ServerFirst(nonce, salt, iterations), raw);
            var signature: bytes := hs.HMAC(v.serverKey, AuthMessage(bare, raw, nonce));
            && (VerifyServerFinal(text, expected) <==> "v=" <= text && ReadStd64(text[2..]) == Some(signature))
            && VerifyServerFinal(ServerFinalText(hs, v, AuthMessage(bare, raw, nonce)), expected)
  {
    var v := MakeVerifier(hs, password, salt, iterations);
    var final := ServerFinalText(hs, v, AuthMessage(bare, raw, nonce));
    assert final[2..] == Std64(hs.HMAC(v.serverKey, AuthMessage(bare, raw, nonce)));
    Base64.RoundTrip(hs.HMAC(v.serverKey, AuthMessage(bare, raw, nonce)), Base64.Std);
  }

  /** A server that holds only the stored text and receives the client's first message sends a
      server-first-message that the client reads exactly and whose nonce extends the client's, accepts
      the client's final message, and is accepted exactly for a text that decodes to its own
      signature. */
  predicate Agree(hs: Hashes, text: bytes, user: bytes, password: bytes, clientNonce: bytes, serverPart: bytes, answer: bytes)
  {
    var stored := ReadVerifier(text);
    var first := ReadClientFirst(GS2_HEADER + FirstBare(user, clientNonce));
    && stored.Some? && first.Some?
    && var v := stored.value;
    && var (name, seen, bare) := first.value;
    && name == user
    && var nonce := seen + serverPart;
    && clientNonce <= nonce
    && var raw := ServerFirstText(nonce, v.salt, v.iterations);
    && ParseServerFirst(raw) == Some(ServerFirst(nonce, v.salt, v.iterations))
    && var sf := ParseServerFirst(raw).value;
    && ServerAccepts(hs, v, bare, nonce, raw, FinalMessage(hs, password, FirstBare(user, clientNonce), sf, raw))
    && var signature: bytes := hs.HMAC(v.serverKey, AuthMessage(bare, raw, nonce));
    && var expected := ExpectedSignature(hs, password, FirstBare(user, clientNonce), sf, raw);
    && (VerifyServerFinal(answer, expected) <==> "v=" <= answer && ReadStd64(answer[2..]) == Some(signature))
  }

  /** Agreement of the two packages, for every user, password, salt, positive iteration count and
      comma-free nonce extending the client's. */
  lemma MutualAuthentication(hs: Hashes, user: bytes, password: bytes, salt: bytes, iterations: int,
                             clientNonce: bytes, serverPart: bytes, answer: bytes)
    requires 1 <= iterations <= MAX_INT64
    requires ',' !in clientNonce && ',' !in serverPart && clientNonce + serverPart != []
    ensures Agree(hs, VerifierText(MakeVerifier(hs, password, salt, iterations)), user, password, clientNonce, serverPart, answer)
  {
    var v := MakeVerifier(hs, password, salt, iterations);
    var nonce := clientNonce + serverPart;
    VerifierRoundTrip(v);
    ClientFirstReadBack(user, clientNonce);
    ServerFirstReadBack(nonce, salt, iterations);
    ServerAcceptsClient(hs, user, password, salt, iterations, clientNonce, nonce);
    ClientAcceptsServer(hs, password, salt, iterations, FirstBare(user, clientNonce), nonce,
                        ServerFirstText(nonce, salt, iterations), answer);
  }

  /** In particular for the text that the provisioner hands to the database, with drawn nonces. */
  lemma ProvisionedRoleAuthenticates(hs: Hashes, user: bytes, password: bytes, salt: bytes,
                                     drawn: bytes, serverPart: bytes, answer: bytes)
    requires drawn != [] && ',' !in serverPart
    ensures Agree(hs, ScramVerifier(hs, password, salt), user, password, Std64(drawn), serverPart, answer)
  {
    NonceCommaFree(drawn);
    MutualAuthentication(hs, user, password, salt, 4096, Std64(drawn), serverPart, answer);
  }

  /** The three messages an honest server answers with. */
  function HonestAnswers(hs: Hashes, v: Verifier, bare: bytes, nonce: bytes): seq<Message>
  {
    var raw := ServerFirstText(nonce, v.salt, v.iterations);
    [AuthenticationMessage(SASL_CONTINUE, raw),
     AuthenticationMessage(SASL_FINAL, ServerFinalText(hs, v, AuthMessage(bare, raw, nonce))),
     AuthenticationMessage(AUTH_OK, [])]
  }

  /** On the wire: facing an honest server for a role whose verifier was made from the same password,
      the client's exchange succeeds and consumes exactly the server's three messages. */
  lemma HonestExchangeSucceeds(hs: Hashes, user: bytes, password: bytes, salt: bytes, iterations: int,
                               clientNonce: bytes, serverPart: bytes, tail: bytes)
    requires 1 <= iterations <= MAX_INT64
    requires ',' !in clientNonce && ',' !in serverPart && clientNonce + serverPart != []
    requires var v := MakeVerifier(hs, password, salt, iterations);
             forall m <- HonestAnswers(hs, v, FirstBare(user, clientNonce), clientNonce + serverPart) :: Fits(m)
    ensures var v := MakeVerifier(hs, password, salt, iterations);
            var answers := HonestAnswers(hs, v, FirstBare(user, clientNonce), clientNonce + serverPart);
            && ExchangeSucceeds(hs, user, password, clientNonce, EncodeAll(answers) + tail)
            && DecodeMany(EncodeAll(answers) + tail, 3) == Got(answers, tail)
  {
    var v := MakeVerifier(hs, password, salt, iterations);
    var bare := FirstBare(user, clientNonce);
    var nonce := clientNonce + serverPart;
    var raw := ServerFirstText(nonce, salt, iterations);
    var answers := HonestAnswers(hs, v, bare, nonce);
    StreamRoundTrip(answers, tail);
    ParseAuthenticationMessage(SASL_CONTINUE, raw);
    ParseAuthenticationMessage(SASL_FINAL, ServerFinalText(hs, v, AuthMessage(bare, raw, nonce)));
    ParseAuthenticationMessage(AUTH_OK, []);
    ServerFirstReadBack(nonce, salt, iterations);
    ClientAcceptsServer(hs, password, salt, iterations, bare, nonce, raw, []);
    assert CompletesExchange(hs, user, password, clientNonce, answers);
  }
}
