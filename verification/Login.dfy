/** The stored verifier and the login loop together: internal/dbprov/admin.go on one side,
    internal/sidecar/postgres.go on the other. */
module Login {
  import opened Text
  import opened Frame
  import opened Startup
  import opened Scram
  import opened Handshake
  import Server = ScramServer

  /** What a server holding only the stored text answers with; nothing when it cannot read it. */
  function Answers(l: Handshake.Login, stored: bytes, serverPart: bytes): seq<Message>
  {
    match Server.ReadVerifier(stored)
    case None => []
    case Some(v) => Server.HonestAnswers(l.hs, v, FirstBare(l.cred.user, l.nonce), l.nonce + serverPart)
  }

  /** The SASL request, the three answers, and the messages up to ReadyForQuery. */
  function Stream(mechanisms: bytes, answers: seq<Message>, ready: seq<Message>): seq<Message>
  {
    [AuthenticationMessage(AUTH_SASL, mechanisms)] + (answers + ready)
  }

  lemma ProvisionedText(hs: Hashes, password: bytes, salt: bytes)
    ensures Server.ReadVerifier(Server.ScramVerifier(hs, password, salt))
         == Some(Server.MakeVerifier(hs, password, salt, 4096))
  {
    Server.VerifierRoundTrip(Server.MakeVerifier(hs, password, salt, 4096));
  }

  lemma AsksForScram(mechanisms: bytes)
    requires Contains(mechanisms, MECHANISM)
    ensures VerdictOn(AuthenticationMessage(AUTH_SASL, mechanisms)) == WantsScram
  {
    ParseAuthenticationMessage(AUTH_SASL, mechanisms);
  }

  lemma HonestCompletes(l: Handshake.Login, salt: bytes, serverPart: bytes)
    requires ',' !in l.nonce && ',' !in serverPart && l.nonce + serverPart != []
    requires var v := Server.MakeVerifier(l.hs, l.cred.password, salt, 4096);
             forall m <- Server.HonestAnswers(l.hs, v, FirstBare(l.cred.user, l.nonce), l.nonce + serverPart) :: Fits(m)
    ensures var answers := Answers(l, Server.ScramVerifier(l.hs, l.cred.password, salt), serverPart);
            |answers| == 3 && LoginRules(l).completes(answers)
  {
    ProvisionedText(l.hs, l.cred.password, salt);
    Server.HonestExchangeSucceeds(l.hs, l.cred.user, l.cred.password, salt, 4096, l.nonce, serverPart, []);
  }

  lemma AllFitMembers(ms: seq<Message>, part: seq<Message>)
    requires AllFit(ms) && forall m <- part :: m in ms
    ensures forall m <- part :: Fits(m)
  {
  }

  /** A role provisioned with a password can be logged into with it: for every user, password, salt and
      comma-free nonces, when the server holds the text the provisioner stored, offers SCRAM-SHA-256,
      answers as RFC 5802 says, and then gets ready, the login loop hands the connection back and leaves
      unread exactly what follows. */
  lemma ProvisionedLogin(l: Handshake.Login, salt: bytes, serverPart: bytes, mechanisms: bytes, ready: seq<Message>,
                         rest: bytes, writes: nat)
    requires ',' !in l.nonce && ',' !in serverPart && l.nonce + serverPart != []
    requires Contains(mechanisms, MECHANISM) && EndsReady(ready) && writes >= 2
    requires AllFit(Stream(mechanisms, Answers(l, Server.ScramVerifier(l.hs, l.cred.password, salt), serverPart), ready))
    ensures var answers := Answers(l, Server.ScramVerifier(l.hs, l.cred.password, salt), serverPart);
            Accepts(LoginRules(l), EncodeAll(Stream(mechanisms, answers, ready)) + rest, writes) == Some(rest)
  {
    var answers := Answers(l, Server.ScramVerifier(l.hs, l.cred.password, salt), serverPart);
    var request := AuthenticationMessage(AUTH_SASL, mechanisms);
    var ms := Stream(mechanisms, answers, ready);
    AsksForScram(mechanisms);
    AllFitMembers(ms, answers);
    ProvisionedText(l.hs, l.cred.password, salt);
    HonestCompletes(l, salt, serverPart);
    GrantedByScram(LoginRules(l), request, answers, ready);
    AcceptsComplete(LoginRules(l), ms, 0, rest, writes);
  }

  // ---------------------------------------------------------------- what the server reads

  /** The startup message names the credential's user and database under those keys. */
  lemma StartupReadBack(l: Handshake.Login, order: seq<bytes>, tail: bytes)
    requires IsOrder(order, StartupParams(l.cred)) && 4 + |StartupBody(order, StartupParams(l.cred))| < TWO_32
    requires '\0' !in l.cred.user && '\0' !in l.cred.database
    ensures var r := ReadStartupSpec(StartupBytes(order, StartupParams(l.cred)) + tail);
            && r.Started? && r.rest == tail && r.params.Keys == {"user", "database", "client_encoding"}
            && r.params["user"] == l.cred.user && r.params["database"] == l.cred.database && r.params["client_encoding"] == "UTF8"
  {
    var params := StartupParams(l.cred);
    assert NulFree(params) by {
      forall k | k in params ensures NUL !in k && NUL !in params[k] {
        assert k == "user" || k == "database" || k == "client_encoding";
      }
    }
    StartupRoundTrip(order, params, tail);
  }

  /** What PostgreSQL stores for a role with an MD5 password. */
  function Md5Stored(md5: bytes -> bytes, user: bytes, password: bytes): bytes
  {
    "md5" + Hex(md5(password + user))
  }

  /** The answer is the digest of the stored digest with the salt that was sent. */
  predicate Md5Accepts(md5: bytes -> bytes, stored: bytes, salt: bytes, answer: bytes)
  {
    "md5" <= stored && answer == "md5" + Hex(md5(stored[3..] + salt))
  }

  /** The payload of a 'p' message, read as a NUL-terminated password. */
  function ReadPassword(s: bytes): Option<(bytes, bytes)>
  {
    match DecodeMessage(s)
    case Failed(_) => None
    case Got(m, rest) =>
      if m.kind == 'p' && m.payload != [] && m.payload[|m.payload| - 1] == '\0' then Some((m.payload[..|m.payload| - 1], rest)) else None
  }

  lemma ReplyRead(l: Handshake.Login, m: Message, tail: bytes)
    requires |PasswordAnswer(l, m)| + 5 < TWO_32
    ensures ReadPassword(Reply(l, m) + tail) == Some((PasswordAnswer(l, m), tail))
  {
    MessageRoundTrip(Message('p', PasswordAnswer(l, m) + ['\0']), tail);
    TakeAppend(PasswordAnswer(l, m), ['\0']);
  }

  /** A server that asked for MD5 with four salt bytes, holding only the stored digest, accepts the
      reply. */
  lemma Md5Accepted(l: Handshake.Login, salt: bytes, tail: bytes)
    requires |salt| == 4
    requires |PasswordAnswer(l, AuthenticationMessage(5, salt))| + 5 < TWO_32
    ensures var read := ReadPassword(Reply(l, AuthenticationMessage(5, salt)) + tail);
            && read.Some? && read.value.1 == tail
            && Md5Accepts(l.md5, Md5Stored(l.md5, l.cred.user, l.cred.password), salt, read.value.0)
  {
    var m := AuthenticationMessage(5, salt);
    ParseAuthenticationMessage(5, salt);
    ReplyRead(l, m, tail);
    TakeAppend("md5", Hex(l.md5(l.cred.password + l.cred.user)));
    assert salt[..4] == salt;
  }

  /** A server that asked for clear text reads back the password. */
  lemma ClearTextRead(l: Handshake.Login, payload: bytes, tail: bytes)
    requires |l.cred.password| + 5 < TWO_32
    ensures ReadPassword(Reply(l, AuthenticationMessage(3, payload)) + tail) == Some((l.cred.password, tail))
  {
    ParseAuthenticationMessage(3, payload);
    ReplyRead(l, AuthenticationMessage(3, payload), tail);
  }

  /** A server that asked for SASL recovers from the first message the mechanism and a
      client-first-message with the user and the nonce. */
  lemma FirstSentRead(user: bytes, nonce: bytes, tail: bytes)
    requires ',' !in nonce && |InitialResponse(MECHANISM, GS2_HEADER + FirstBare(user, nonce))| + 4 < TWO_32
    ensures var d := DecodeMessage(FirstSent(user, nonce) + tail);
            && d.Got? && d.rest == tail && d.value.kind == 'p'
            && var read := Server.ReadInitialResponse(d.value.payload);
            && read.Some? && read.value.0 == "SCRAM-SHA-256"
            && Server.ReadClientFirst(read.value.1) == Some((user, nonce, FirstBare(user, nonce)))
  {
    var first := GS2_HEADER + FirstBare(user, nonce);
    var m := Message('p', InitialResponse(MECHANISM, first));
    MessageRoundTrip(m, tail);
    assert |first| < TWO_32;
    Server.InitialResponseReadBack(MECHANISM, first);
    Server.ClientFirstReadBack(user, nonce);
  }

  /** And from the second one a final message. */
  lemma FinalSentRead(hs: Hashes, user: bytes, password: bytes, nonce: bytes, m: Message, tail: bytes)
    requires IsServerFirst(m, nonce)
    requires var raw := ParseAuthentication(m).value.1;
             |FinalMessage(hs, password, FirstBare(user, nonce), ParseServerFirst(raw).value, raw)| + 4 < TWO_32
    ensures var raw := ParseAuthentication(m).value.1;
            DecodeMessage(FinalSent(hs, user, password, nonce, m) + tail)
            == Got(Message('p', FinalMessage(hs, password, FirstBare(user, nonce), ParseServerFirst(raw).value, raw)), tail)
  {
    var raw := ParseAuthentication(m).value.1;
    MessageRoundTrip(Message('p', FinalMessage(hs, password, FirstBare(user, nonce), ParseServerFirst(raw).value, raw)), tail);
  }

  // ---------------------------------------------------------------- the other methods succeed

  lemma VerdictOfCode(code: nat, payload: bytes)
    requires code in {0, 3, 5}
    ensures VerdictOn(AuthenticationMessage(code, payload)) == if code == 0 then Granted else WantsPassword
  {
    ParseAuthenticationMessage(code, payload);
  }

  /** A server that trusts the client, or that asks for a password in clear text or MD5 and is satisfied,
      gets a connection too. */
  lemma SimpleLogins(l: Handshake.Login, code: nat, payload: bytes, ready: seq<Message>, rest: bytes, writes: nat)
    requires code in {0, 3, 5} && EndsReady(ready) && AllFit(ready) && writes >= 1
    requires Fits(AuthenticationMessage(code, payload))
    ensures var ms := if code == 0 then [AuthenticationMessage(0, payload)] + ready
                      else [AuthenticationMessage(code, payload)] + ([AuthenticationMessage(0, [])] + ready);
            Accepts(LoginRules(l), EncodeAll(ms) + rest, writes) == Some(rest)
  {
    var r := LoginRules(l);
    var granted := AuthenticationMessage(0, if code == 0 then payload else []);
    VerdictOfCode(0, if code == 0 then payload else []);
    GrantedAtOnce(r, granted, ready);
    if code == 0 {
      AcceptsComplete(r, [granted] + ready, 0, rest, writes);
    } else {
      var request := AuthenticationMessage(code, payload);
      VerdictOfCode(code, payload);
      Shifted(r, request, [granted] + ready, 0);
      AcceptsComplete(r, [request] + ([granted] + ready), 1, rest, writes);
    }
  }
}
