/** The upstream login loop of internal/sidecar/postgres.go: dialAndAuthenticate and
    drainToReadyForQuery, over any finite stream of bytes from the server. */
module Handshake {
  import opened Text
  import opened Frame
  import opened Startup
  import opened Scram

  const AUTH_CLEARTEXT := 3
  const AUTH_MD5 := 5
  const AUTH_SASL := 10

  datatype Credential = Credential(host: bytes, port: int, database: bytes, user: bytes, password: bytes)

  /** What one login uses besides the stream: the hash functions, MD5, the credential, and the nonce
      drawn for it. */
  datatype Login = Login(hs: Hashes, md5: bytes -> bytes, cred: Credential, nonce: bytes)

  const USER: bytes := "user"
  const DATABASE: bytes := "database"
  const CLIENT_ENCODING: bytes := "client_encoding"
  const UTF8: bytes := "UTF8"

  function StartupParams(cred: Credential): Params
  {
    map[USER := cred.user, DATABASE := cred.database, CLIENT_ENCODING := UTF8]
  }

  function Hex(b: bytes): bytes
  {
    if b == [] then [] else [HexDigit(b[0] as int / 16, 'a'), HexDigit(b[0] as int % 16, 'a')] + Hex(b[1..])
  }

  function Md5Password(md5: bytes -> bytes, user: bytes, password: bytes, salt: bytes): bytes
  {
    "md5" + Hex(md5(Hex(md5(password + user)) + salt))
  }

  /** copy into a [4]byte: cut to four bytes or filled up with NULs. */
  function Salt(payload: bytes): bytes
  {
    if |payload| >= 4 then payload[..4] else payload + seq(4 - |payload|, _ => NUL)
  }

  lemma SaltExactly(payload: bytes, i: nat)
    requires i < 4
    ensures |Salt(payload)| == 4 && Salt(payload)[i] == if i < |payload| then payload[i] else '\0'
  {
  }

  predicate Contains(hay: bytes, needle: bytes)
  {
    needle <= hay || (hay != [] && Contains(hay[1..], needle))
  }

  // ---------------------------------------------------------------- a generic login loop

  /** What the loop does with one message. */
  datatype Verdict = Refused | Ignored | Granted | WantsPassword | WantsScram

  /** The loop depends on a message only through its verdict and the reply to it, and on a SCRAM
      exchange only through whether its three messages complete it and what it sends on a stream. */
  datatype Rules = Rules(verdict: Message -> Verdict, completes: seq<Message> -> bool,
                         reply: Message -> bytes, exchange: (bytes, nat) -> bytes)

  function Drain(s: bytes): Option<bytes>
    decreases |s|
  {
    match DecodeMessage(s)
    case Failed(_) => None
    case Got(m, rest) =>
      if m.kind == READY_FOR_QUERY then Some(rest)
      else if m.kind == ERROR_RESPONSE then None
      else Drain(rest)
  }

  /** What one message decides, when `rest` follows it: nothing yet (None), a failure (Some(None)), or
      a success that leaves the given stream. */
  function Decision(r: Rules, m: Message, rest: bytes, writes: nat): Option<Option<bytes>>
  {
    match r.verdict(m)
    case Refused => Some(None)
    case Ignored => None
    case Granted => Some(Drain(rest))
    case WantsPassword => if writes == 0 then Some(None) else None
    case WantsScram =>
      var answers := DecodeMany(rest, 3);
      Some(if writes >= 2 && answers.Got? && r.completes(answers.value) then Drain(answers.rest) else None)
  }

  function WritesAfter(r: Rules, m: Message, writes: nat): nat
  {
    if r.verdict(m) == WantsPassword && writes > 0 then writes - 1 else writes
  }

  /** The stream left after a successful login, when the connection still takes `writes` writes. */
  function Accepts(r: Rules, s: bytes, writes: nat): Option<bytes>
    decreases |s|
  {
    match DecodeMessage(s)
    case Failed(_) => None
    case Got(m, rest) =>
      match Decision(r, m, rest, writes)
      case Some(left) => left
      case None => Accepts(r, rest, WritesAfter(r, m, writes))
  }

  /** What the loop sends because of one message, when `rest` follows it. */
  function Owed(r: Rules, m: Message, rest: bytes, writes: nat): bytes
  {
    match r.verdict(m)
    case WantsPassword => if writes == 0 then [] else r.reply(m)
    case WantsScram => r.exchange(rest, writes)
    case _ => []
  }

  /** Everything sent when the loop ends, however it ends, if `sent` was sent before. */
  function Talk(r: Rules, s: bytes, writes: nat, sent: bytes): bytes
    decreases |s|
  {
    match DecodeMessage(s)
    case Failed(_) => sent
    case Got(m, rest) =>
      if Decision(r, m, rest, writes).Some? then sent + Owed(r, m, rest, writes)
      else Talk(r, rest, WritesAfter(r, m, writes), sent + Owed(r, m, rest, writes))
  }

  /** A run of messages that ends with the first ReadyForQuery and holds no ErrorResponse. */
  predicate EndsReady(ms: seq<Message>)
  {
    && |ms| > 0
    && ms[|ms| - 1].kind == 'Z'
    && forall i :: 0 <= i < |ms| - 1 ==> ms[i].kind != 'Z' && ms[i].kind != 'E'
  }

  predicate Undecided(r: Rules, m: Message) { r.verdict(m) == Ignored || r.verdict(m) == WantsPassword }

  /** The decision falls at message k: granted at once, or a SCRAM request followed by three messages
      that complete the exchange; then the server gets ready. */
  predicate DecidedAt(r: Rules, ms: seq<Message>, k: nat)
  {
    && k < |ms|
    && (forall i :: 0 <= i < k ==> Undecided(r, ms[i]))
    && ((r.verdict(ms[k]) == Granted && EndsReady(ms[k + 1..]))
        || (r.verdict(ms[k]) == WantsScram && k + 4 <= |ms| && r.completes(ms[k + 1..k + 4]) && EndsReady(ms[k + 4..])))
  }

  function PasswordRequests(r: Rules, ms: seq<Message>): nat
  {
    if ms == [] then 0 else (if r.verdict(ms[0]) == WantsPassword then 1 else 0) + PasswordRequests(r, ms[1..])
  }

  /** Writes the client needs after its startup message. */
  function WritesNeeded(r: Rules, ms: seq<Message>, k: nat): nat
    requires k < |ms|
  {
    PasswordRequests(r, ms[..k]) + (if r.verdict(ms[k]) == WantsScram then 2 else 0)
  }

  predicate AllFit(ms: seq<Message>) { forall i :: 0 <= i < |ms| ==> Fits(ms[i]) }

  // ---------------------------------------------------------------- which streams it accepts

  lemma EncodeCons(m: Message, tail: seq<Message>)
    ensures EncodeAll([m] + tail) == EncodeMessage(m) + EncodeAll(tail)
  {
    assert ([m] + tail)[1..] == tail;
  }

  lemma {:induction false} EncodeAllAppend(a: seq<Message>, b: seq<Message>)
    ensures EncodeAll(a + b) == EncodeAll(a) + EncodeAll(b)
  {
    if a == [] {
      assert a + b == b;
    } else {
      EncodeAllAppend(a[1..], b);
      assert a + b == [a[0]] + (a[1..] + b) by { assert a == [a[0]] + a[1..]; }
      EncodeCons(a[0], a[1..] + b);
      Assoc(EncodeMessage(a[0]), EncodeAll(a[1..]), EncodeAll(b));
    }
  }

  lemma {:induction false} DecodeManyExact(s: bytes, n: nat)
    requires DecodeMany(s, n).Got?
    ensures var r := DecodeMany(s, n);
            s == EncodeAll(r.value) + r.rest && AllFit(r.value) && |r.value| == n
  {
    if n > 0 {
      DecodeExact(s);
      var m, rest := DecodeMessage(s).value, DecodeMessage(s).rest;
      DecodeManyExact(rest, n - 1);
      var r := DecodeMany(rest, n - 1);
      EncodeCons(m, r.value);
      Assoc(EncodeMessage(m), EncodeAll(r.value), r.rest);
    }
  }

  lemma {:induction false} DrainSound(s: bytes) returns (ms: seq<Message>)
    requires Drain(s).Some?
    ensures s == EncodeAll(ms) + Drain(s).value && AllFit(ms) && EndsReady(ms)
    decreases |s|
  {
    DecodeExact(s);
    var m, rest := DecodeMessage(s).value, DecodeMessage(s).rest;
    if m.kind == READY_FOR_QUERY {
      ms := [m];
      assert EncodeAll(ms) == EncodeMessage(m) + EncodeAll([]);
    } else {
      var tail := DrainSound(rest);
      ms := [m] + tail;
      EncodeCons(m, tail);
      Assoc(EncodeMessage(m), EncodeAll(tail), Drain(s).value);
    }
  }

  /** Reading the first of several encoded messages. */
  lemma FirstDecodes(ms: seq<Message>, rest: bytes)
    requires ms != [] && AllFit(ms)
    ensures DecodeMessage(EncodeAll(ms) + rest) == Got(ms[0], EncodeAll(ms[1..]) + rest)
  {
    Assoc(EncodeMessage(ms[0]), EncodeAll(ms[1..]), rest);
    MessageRoundTrip(ms[0], EncodeAll(ms[1..]) + rest);
  }

  lemma {:induction false} DrainComplete(ms: seq<Message>, rest: bytes)
    requires AllFit(ms) && EndsReady(ms)
    ensures Drain(EncodeAll(ms) + rest) == Some(rest)
  {
    FirstDecodes(ms, rest);
    if |ms| == 1 {
      assert EncodeAll(ms[1..]) + rest == rest;
    } else {
      DrainComplete(ms[1..], rest);
    }
  }

  /** One more undecided message in front moves the decision by one. */
  lemma Shifted(r: Rules, m: Message, tail: seq<Message>, j: nat)
    requires Undecided(r, m) && DecidedAt(r, tail, j)
    ensures DecidedAt(r, [m] + tail, j + 1)
    ensures WritesNeeded(r, [m] + tail, j + 1) == WritesNeeded(r, tail, j) + (if r.verdict(m) == WantsPassword then 1 else 0)
  {
    var ms := [m] + tail;
    assert ms[j + 2..] == tail[j + 1..];
    if j + 4 <= |tail| {
      assert ms[j + 2..j + 5] == tail[j + 1..j + 4];
      assert ms[j + 5..] == tail[j + 4..];
    }
    assert ms[..j + 1] == [m] + tail[..j];
    assert ms[..j + 1][1..] == tail[..j];
  }

  lemma Unshifted(r: Rules, ms: seq<Message>, k: nat)
    requires k > 0 && DecidedAt(r, ms, k)
    ensures DecidedAt(r, ms[1..], k - 1)
    ensures WritesNeeded(r, ms, k) == WritesNeeded(r, ms[1..], k - 1) + (if r.verdict(ms[0]) == WantsPassword then 1 else 0)
  {
    var tail := ms[1..];
    assert ms[k + 1..] == tail[k..];
    if k + 4 <= |ms| {
      assert ms[k + 1..k + 4] == tail[k..k + 3];
      assert ms[k + 4..] == tail[k + 3..];
    }
    assert ms[..k][1..] == tail[..k - 1];
  }

  lemma GrantedAtOnce(r: Rules, m: Message, tail: seq<Message>)
    requires r.verdict(m) == Granted && EndsReady(tail)
    ensures DecidedAt(r, [m] + tail, 0) && WritesNeeded(r, [m] + tail, 0) == 0
  {
    assert ([m] + tail)[1..] == tail;
  }

  lemma GrantedByScram(r: Rules, m: Message, answers: seq<Message>, tail: seq<Message>)
    requires r.verdict(m) == WantsScram && |answers| == 3 && r.completes(answers) && EndsReady(tail)
    ensures DecidedAt(r, [m] + (answers + tail), 0) && WritesNeeded(r, [m] + (answers + tail), 0) == 2
  {
    var ms := [m] + (answers + tail);
    assert ms[1..4] == answers && ms[4..] == tail;
  }

  /** One more message in front of what has been read. */
  lemma ReadOneMore(s: bytes, tail: seq<Message>, left: bytes)
    requires DecodeMessage(s).Got? && DecodeMessage(s).rest == EncodeAll(tail) + left && AllFit(tail)
    ensures s == EncodeAll([DecodeMessage(s).value] + tail) + left && AllFit([DecodeMessage(s).value] + tail)
  {
    var m := DecodeMessage(s).value;
    DecodeExact(s);
    EncodeCons(m, tail);
    Assoc(EncodeMessage(m), EncodeAll(tail), left);
  }

  /** The three answers and the messages up to ReadyForQuery, as they are read. */
  lemma ScramSound(r: Rules, s: bytes) returns (answers: seq<Message>, ready: seq<Message>)
    requires DecodeMany(s, 3).Got? && r.completes(DecodeMany(s, 3).value) && Drain(DecodeMany(s, 3).rest).Some?
    ensures s == EncodeAll(answers + ready) + Drain(DecodeMany(s, 3).rest).value
    ensures AllFit(answers + ready) && |answers| == 3 && r.completes(answers) && EndsReady(ready)
  {
    var d := DecodeMany(s, 3);
    DecodeManyExact(s, 3);
    answers := d.value;
    ready := DrainSound(d.rest);
    EncodeAllAppend(answers, ready);
    Assoc(EncodeAll(answers), EncodeAll(ready), Drain(d.rest).value);
  }

  /** A login that succeeds has read such a run of messages, and nothing else. */
  lemma {:induction false} AcceptsSound(r: Rules, s: bytes, writes: nat) returns (ms: seq<Message>, k: nat)
    requires Accepts(r, s, writes).Some?
    ensures s == EncodeAll(ms) + Accepts(r, s, writes).value
    ensures AllFit(ms) && DecidedAt(r, ms, k) && WritesNeeded(r, ms, k) <= writes
    decreases |s|
  {
    DecodeExact(s);
    var m, rest := DecodeMessage(s).value, DecodeMessage(s).rest;
    var tail: seq<Message>;
    match r.verdict(m) {
      case Granted =>
        tail := DrainSound(rest);
        k := 0;
        GrantedAtOnce(r, m, tail);
      case WantsScram =>
        var answers, ready := ScramSound(r, rest);
        tail, k := answers + ready, 0;
        GrantedByScram(r, m, answers, ready);
      case Ignored =>
        tail, k := AcceptsSound(r, rest, writes);
        Shifted(r, m, tail, k);
        k := k + 1;
      case WantsPassword =>
        tail, k := AcceptsSound(r, rest, writes - 1);
        Shifted(r, m, tail, k);
        k := k + 1;
    }
    ReadOneMore(s, tail, Accepts(r, s, writes).value);
    ms := [m] + tail;
  }

  lemma ScramComplete(r: Rules, answers: seq<Message>, ready: seq<Message>, rest: bytes)
    requires AllFit(answers) && AllFit(ready) && |answers| == 3 && r.completes(answers) && EndsReady(ready)
    ensures var d := DecodeMany(EncodeAll(answers + ready) + rest, 3);
            d.Got? && r.completes(d.value) && Drain(d.rest) == Some(rest)
  {
    EncodeAllAppend(answers, ready);
    Assoc(EncodeAll(answers), EncodeAll(ready), rest);
    StreamRoundTrip(answers, EncodeAll(ready) + rest);
    DrainComplete(ready, rest);
  }

  /** Every such run of messages, whatever follows it, makes the login succeed. */
  lemma {:induction false} AcceptsComplete(r: Rules, ms: seq<Message>, k: nat, rest: bytes, writes: nat)
    requires AllFit(ms) && DecidedAt(r, ms, k) && WritesNeeded(r, ms, k) <= writes
    ensures Accepts(r, EncodeAll(ms) + rest, writes) == Some(rest)
    decreases k
  {
    FirstDecodes(ms, rest);
    if k > 0 {
      Unshifted(r, ms, k);
      AcceptsComplete(r, ms[1..], k - 1, rest, if r.verdict(ms[0]) == WantsPassword then writes - 1 else writes);
    } else if r.verdict(ms[0]) == Granted {
      DrainComplete(ms[1..], rest);
    } else {
      DropSplit(ms, 1, 4);
      ScramComplete(r, ms[1..4], ms[4..], rest);
    }
  }

  // ---------------------------------------------------------------- the loop of the proxy

  predicate HasCode(m: Message, code: int)
  {
    ParseAuthentication(m).Some? && ParseAuthentication(m).value.0 == code
  }

  function VerdictOn(m: Message): Verdict
  {
    if m.kind == ERROR_RESPONSE then Refused
    else if m.kind != AUTHENTICATION then Ignored
    else if HasCode(m, AUTH_OK) then Granted
    else if HasCode(m, AUTH_CLEARTEXT) || HasCode(m, AUTH_MD5) then WantsPassword
    else if HasCode(m, AUTH_SASL) && Contains(ParseAuthentication(m).value.1, MECHANISM) then WantsScram
    else Refused
  }

  function PasswordAnswer(l: Login, m: Message): bytes
  {
    if HasCode(m, AUTH_MD5) then Md5Password(l.md5, l.cred.user, l.cred.password, Salt(ParseAuthentication(m).value.1))
    else l.cred.password
  }

  /** The answer to a password request, as it is sent. */
  function Reply(l: Login, m: Message): bytes
  {
    EncodeMessage(Message(PASSWORD_MESSAGE, PasswordAnswer(l, m) + [NUL]))
  }

  function LoginRules(l: Login): Rules
  {
    Rules(VerdictOn,
          ms => CompletesExchange(l.hs, l.cred.user, l.cred.password, l.nonce, ms),
          m => Reply(l, m),
          (s, writes) => ScramSent(l.hs, l.cred.user, l.cred.password, l.nonce, s, writes))
  }

  method DrainToReadyForQuery(c: Conn) returns (ok: bool)
    modifies c`incoming
    ensures ok <==> Drain(old(c.incoming)).Some?
    ensures ok ==> Some(c.incoming) == Drain(old(c.incoming))
  {
    while true
      invariant Drain(c.incoming) == Drain(old(c.incoming))
      decreases |c.incoming|
    {
      var msg := ReadMessage(c);
      if msg.None? { return false; }
      if msg.value.kind == READY_FOR_QUERY { return true; }
      if msg.value.kind == ERROR_RESPONSE { return false; }
    }
  }

  method WritePasswordMessage(c: Conn, password: bytes) returns (ok: bool)
    modifies c`sent, c`writesLeft
    ensures ok == (old(c.writesLeft) > 0)
    ensures ok ==> c.sent == old(c.sent) + EncodeMessage(Message(PASSWORD_MESSAGE, password + [NUL])) && c.writesLeft == old(c.writesLeft) - 1
    ensures !ok ==> c.sent == old(c.sent)
  {
    ok := WriteMessage(c, PASSWORD_MESSAGE, password + [NUL]);
  }

  /** The SASL branch: the exchange, then the messages up to ReadyForQuery. */
  method ScramBranch(l: Login, c: Conn) returns (ok: bool)
    modifies c
    ensures var answers := DecodeMany(old(c.incoming), 3);
            && (ok <==> old(c.writesLeft) >= 2 && answers.Got? && LoginRules(l).completes(answers.value) && Drain(answers.rest).Some?)
            && (ok ==> Some(c.incoming) == Drain(answers.rest))
    ensures c.sent == old(c.sent) + LoginRules(l).exchange(old(c.incoming), old(c.writesLeft))
  {
    ok := PerformScram(l.hs, c, l.cred.user, l.cred.password, l.nonce);
    if ok {
      ok := DrainToReadyForQuery(c);
    }
  }

  lemma VerdictByCode(m: Message, code: int, payload: bytes)
    requires m.kind == AUTHENTICATION && ParseAuthentication(m) == Some((code, payload))
    ensures VerdictOn(m) == if code == AUTH_OK then Granted
                            else if code == AUTH_CLEARTEXT || code == AUTH_MD5 then WantsPassword
                            else if code == AUTH_SASL && Contains(payload, MECHANISM) then WantsScram
                            else Refused
  {
  }

  /** The two password requests. */
  method AnswerPassword(l: Login, c: Conn, msg: Message, code: int, payload: bytes) returns (ok: bool)
    requires ParseAuthentication(msg) == Some((code, payload)) && (code == AUTH_CLEARTEXT || code == AUTH_MD5)
    modifies c`sent, c`writesLeft
    ensures ok == (old(c.writesLeft) > 0)
    ensures ok ==> c.sent == old(c.sent) + Reply(l, msg) && c.writesLeft == old(c.writesLeft) - 1
    ensures !ok ==> c.sent == old(c.sent)
  {
    if code == AUTH_CLEARTEXT {
      ok := WritePasswordMessage(c, l.cred.password);
    } else {
      ok := WritePasswordMessage(c, Md5Password(l.md5, l.cred.user, l.cred.password, Salt(payload)));
    }
  }

  /** An 'R' message: the password answers, which leave the loop running (None), or a decision. */
  method AnswerAuthentication(l: Login, c: Conn, msg: Message, ghost r: Rules) returns (decided: Option<bool>)
    requires msg.kind == AUTHENTICATION && r == LoginRules(l)
    modifies c
    ensures var decision := Decision(r, msg, old(c.incoming), old(c.writesLeft));
            match decision
            case None => decided.None? && c.incoming == old(c.incoming) && c.writesLeft == WritesAfter(r, msg, old(c.writesLeft))
            case Some(left) => decided == Some(left.Some?) && (left.Some? ==> Some(c.incoming) == left)
    ensures c.sent == old(c.sent) + Owed(r, msg, old(c.incoming), old(c.writesLeft))
  {
    var auth := ParseAuthentication(msg);
    if auth.None? { return Some(false); }
    var (code, payload) := auth.value;
    VerdictByCode(msg, code, payload);
    var ok;
    if code == AUTH_OK {
      ok := DrainToReadyForQuery(c);
      return Some(ok);
    } else if code == AUTH_CLEARTEXT || code == AUTH_MD5 {
      ok := AnswerPassword(l, c, msg, code, payload);
      return if ok then None else Some(false);
    } else if code == AUTH_SASL {
      if !Contains(payload, MECHANISM) { return Some(false); }
      ok := ScramBranch(l, c);
      return Some(ok);
    }
    return Some(false);
  }

  lemma VerdictByKind(m: Message)
    ensures m.kind == ERROR_RESPONSE ==> VerdictOn(m) == Refused
    ensures m.kind != ERROR_RESPONSE && m.kind != AUTHENTICATION ==> VerdictOn(m) == Ignored
  {
  }

  /** One turn of the loop: a decision, or None to go on. */
  method Turn(l: Login, c: Conn, ghost r: Rules) returns (decided: Option<bool>)
    requires r == LoginRules(l)
    modifies c
    ensures decided.None? ==>
              |c.incoming| < |old(c.incoming)| && Accepts(r, c.incoming, c.writesLeft) == Accepts(r, old(c.incoming), old(c.writesLeft))
    ensures decided.Some? ==>
              && decided.value == Accepts(r, old(c.incoming), old(c.writesLeft)).Some?
              && (decided.value ==> Some(c.incoming) == Accepts(r, old(c.incoming), old(c.writesLeft)))
    ensures (if decided.None? then Talk(r, c.incoming, c.writesLeft, c.sent) else c.sent)
         == Talk(r, old(c.incoming), old(c.writesLeft), old(c.sent))
  {
    ghost var sent, s, writes := c.sent, c.incoming, c.writesLeft;
    var msg := ReadMessage(c);
    if msg.None? { return Some(false); }
    VerdictByKind(msg.value);
    if msg.value.kind == ERROR_RESPONSE { return Some(false); }
    if msg.value.kind == AUTHENTICATION {
      decided := AnswerAuthentication(l, c, msg.value, r);
    } else {
      decided := None;
    }
    assert c.sent == sent + Owed(r, msg.value, DecodeMessage(s).rest, writes);
  }

  method AwaitDecision(l: Login, c: Conn, ghost r: Rules) returns (ok: bool)
    requires r == LoginRules(l)
    modifies c
    ensures ok <==> Accepts(r, old(c.incoming), old(c.writesLeft)).Some?
    ensures ok ==> Some(c.incoming) == Accepts(r, old(c.incoming), old(c.writesLeft))
    ensures c.sent == Talk(r, old(c.incoming), old(c.writesLeft), old(c.sent))
  {
    while true
      invariant Accepts(r, c.incoming, c.writesLeft) == Accepts(r, old(c.incoming), old(c.writesLeft))
      invariant Talk(r, c.incoming, c.writesLeft, c.sent) == Talk(r, old(c.incoming), old(c.writesLeft), old(c.sent))
      decreases |c.incoming|
    {
      var decided := Turn(l, c, r);
      if decided.Some? { return decided.value; }
    }
  }

  method Authenticate(l: Login, c: Conn, params: Params, ghost r: Rules) returns (ok: bool, ghost order: seq<bytes>)
    requires r == LoginRules(l)
    modifies c
    ensures ok <==> old(c.writesLeft) >= 1 && Accepts(r, old(c.incoming), old(c.writesLeft) - 1).Some?
    ensures ok ==> Some(c.incoming) == Accepts(r, old(c.incoming), old(c.writesLeft) - 1)
    ensures IsOrder(order, params)
    ensures old(c.writesLeft) == 0 ==> c.sent == old(c.sent)
    ensures old(c.writesLeft) > 0 ==> c.sent == Talk(r, old(c.incoming), old(c.writesLeft) - 1, old(c.sent) + StartupBytes(order, params))
  {
    ok, order := WriteStartupMessage(c, params);
    if !ok { return; }
    ok := AwaitDecision(l, c, r);
  }

  /** True means the dialled connection is handed back, authenticated; false that it is closed. */
  method DialAndAuthenticate(l: Login, c: Conn, dialled: bool) returns (ok: bool, ghost order: seq<bytes>)
    modifies c
    ensures ok <==> dialled && old(c.writesLeft) >= 1 && Accepts(LoginRules(l), old(c.incoming), old(c.writesLeft) - 1).Some?
    ensures ok ==> Some(c.incoming) == Accepts(LoginRules(l), old(c.incoming), old(c.writesLeft) - 1)
    ensures !dialled || old(c.writesLeft) == 0 ==> c.sent == old(c.sent)
    ensures dialled && old(c.writesLeft) >= 1 ==>
              && IsOrder(order, StartupParams(l.cred))
              && c.sent == Talk(LoginRules(l), old(c.incoming), old(c.writesLeft) - 1,
                                old(c.sent) + StartupBytes(order, StartupParams(l.cred)))
  {
    order := [];
    if !dialled { return false, order; }
    ok, order := Authenticate(l, c, StartupParams(l.cred), LoginRules(l));
  }

  /** Exactly which streams log in: those that begin with a run of messages in which the server
      decides in the client's favour and then gets ready. */
  lemma LoginCharacterised(l: Login, s: bytes, writes: nat, rest: bytes)
    ensures Accepts(LoginRules(l), s, writes) == Some(rest) <==>
            exists ms, k :: DecidedAt(LoginRules(l), ms, k) && s == EncodeAll(ms) + rest && AllFit(ms)
                            && WritesNeeded(LoginRules(l), ms, k) <= writes
  {
    var r := LoginRules(l);
    if Accepts(r, s, writes) == Some(rest) {
      var ms, k := AcceptsSound(r, s, writes);
    }
    if ms, k :| DecidedAt(r, ms, k) && s == EncodeAll(ms) + rest && AllFit(ms) && WritesNeeded(r, ms, k) <= writes {
      AcceptsComplete(r, ms, k, rest, writes);
    }
  }

  // ---------------------------------------------------------------- what is sent

  /** The replies to the password requests of a run, in order. */
  function PasswordReplies(r: Rules, ms: seq<Message>): bytes
  {
    if ms == [] then []
    else (if r.verdict(ms[0]) == WantsPassword then r.reply(ms[0]) else []) + PasswordReplies(r, ms[1..])
  }

  /** What the exchange, if there is one, sends from the decision at message k. */
  function ExchangeReplies(r: Rules, ms: seq<Message>, k: nat, rest: bytes, writes: nat): bytes
    requires k < |ms|
  {
    if r.verdict(ms[k]) == WantsScram then r.exchange(EncodeAll(ms[k + 1..]) + rest, writes) else []
  }

  function OwnReply(r: Rules, m: Message): bytes { if r.verdict(m) == WantsPassword then r.reply(m) else [] }

  /** The loop ends at a message that decides. */
  lemma TalkEnd(r: Rules, s: bytes, writes: nat, sent: bytes, m: Message, rest: bytes, exchange: bytes)
    requires DecodeMessage(s) == Got(m, rest) && (r.verdict(m) == Granted || r.verdict(m) == WantsScram)
    requires exchange == if r.verdict(m) == WantsScram then r.exchange(rest, writes) else []
    ensures Talk(r, s, writes, sent) == sent + exchange
  {
  }

  /** It goes on after one that does not. */
  lemma TalkOn(r: Rules, s: bytes, writes: nat, sent: bytes, m: Message, rest: bytes, left: nat)
    requires DecodeMessage(s) == Got(m, rest) && Undecided(r, m)
    requires if r.verdict(m) == WantsPassword then writes == left + 1 else writes == left
    ensures Talk(r, s, writes, sent) == Talk(r, rest, left, sent + OwnReply(r, m))
  {
  }

  lemma PasswordsNext(r: Rules, ms: seq<Message>, sent: bytes)
    requires ms != []
    ensures sent + PasswordReplies(r, ms) == sent + OwnReply(r, ms[0]) + PasswordReplies(r, ms[1..])
    ensures PasswordRequests(r, ms) == (if r.verdict(ms[0]) == WantsPassword then 1 else 0) + PasswordRequests(r, ms[1..])
  {
    Assoc(sent, OwnReply(r, ms[0]), PasswordReplies(r, ms[1..]));
  }

  /** One reply goes out for each password request before the decision, in order. */
  lemma {:induction false} TalkBefore(r: Rules, before: seq<Message>, s: bytes, writes: nat, sent: bytes, left: nat, total: bytes)
    requires AllFit(before) && forall i :: 0 <= i < |before| ==> Undecided(r, before[i])
    requires writes == left + PasswordRequests(r, before) && total == sent + PasswordReplies(r, before)
    ensures Talk(r, EncodeAll(before) + s, writes, sent) == Talk(r, s, left, total)
    decreases |before|
  {
    if before == [] {
      assert EncodeAll(before) + s == s && total == sent;
    } else {
      var next := left + PasswordRequests(r, before[1..]);
      PasswordsNext(r, before, sent);
      FirstDecodes(before, s);
      TalkOn(r, EncodeAll(before) + s, writes, sent, before[0], EncodeAll(before[1..]) + s, next);
      TalkBefore(r, before[1..], s, next, sent + OwnReply(r, before[0]), left, total);
    }
  }

  lemma DecidedHere(r: Rules, ms: seq<Message>, k: nat)
    requires DecidedAt(r, ms, k)
    ensures r.verdict(ms[k]) == Granted || r.verdict(ms[k]) == WantsScram
    ensures ms[k..] != [] && ms[k..][0] == ms[k] && ms[k..][1..] == ms[k + 1..]
    ensures ms == ms[..k] + ms[k..] && forall i :: 0 <= i < k ==> Undecided(r, ms[..k][i])
  {
  }

  /** A run of undecided messages, and a deciding one in front of what follows. */
  lemma TalkRun(r: Rules, before: seq<Message>, s: bytes, m: Message, rest: bytes, writes: nat, sent: bytes, exchange: bytes)
    requires AllFit(before) && (forall i :: 0 <= i < |before| ==> Undecided(r, before[i]))
    requires DecodeMessage(s) == Got(m, rest) && (r.verdict(m) == Granted || r.verdict(m) == WantsScram)
    requires PasswordRequests(r, before) <= writes
    requires exchange == if r.verdict(m) == WantsScram then r.exchange(rest, writes - PasswordRequests(r, before)) else []
    ensures Talk(r, EncodeAll(before) + s, writes, sent) == sent + PasswordReplies(r, before) + exchange
  {
    var left := writes - PasswordRequests(r, before);
    var total := sent + PasswordReplies(r, before);
    TalkBefore(r, before, s, writes, sent, left, total);
    TalkEnd(r, s, left, total, m, rest, exchange);
  }

  lemma CutStream(before: seq<Message>, after: seq<Message>, rest: bytes)
    ensures EncodeAll(before + after) + rest == EncodeAll(before) + (EncodeAll(after) + rest)
  {
    EncodeAllAppend(before, after);
    Assoc(EncodeAll(before), EncodeAll(after), rest);
  }

  /** Before the decision one reply goes out for each password request, in order; and at it, what the
      exchange sends on the rest of the stream. */
  lemma RepliesInOrder(r: Rules, ms: seq<Message>, k: nat, rest: bytes, writes: nat, sent: bytes, exchange: bytes)
    requires AllFit(ms) && DecidedAt(r, ms, k) && PasswordRequests(r, ms[..k]) <= writes
    requires exchange == ExchangeReplies(r, ms, k, rest, writes - PasswordRequests(r, ms[..k]))
    ensures Talk(r, EncodeAll(ms) + rest, writes, sent) == sent + PasswordReplies(r, ms[..k]) + exchange
  {
    DecidedHere(r, ms, k);
    CutStream(ms[..k], ms[k..], rest);
    FirstDecodes(ms[k..], rest);
    TalkRun(r, ms[..k], EncodeAll(ms[k..]) + rest, ms[k], EncodeAll(ms[k + 1..]) + rest, writes, sent, exchange);
  }

  lemma ExchangeSends(l: Login, ms: seq<Message>, rest: bytes, writes: nat)
    requires AllFit(ms) && ms != [] && IsServerFirst(ms[0], l.nonce) && writes >= 2
    ensures LoginRules(l).exchange(EncodeAll(ms) + rest, writes)
         == FirstSent(l.cred.user, l.nonce) + FinalSent(l.hs, l.cred.user, l.cred.password, l.nonce, ms[0])
  {
    FirstDecodes(ms, rest);
    ScramSentCases(l.hs, l.cred.user, l.cred.password, l.nonce, EncodeAll(ms) + rest, writes);
  }

  /** The two messages of the exchange, if the server asked for it at message k. */
  function ScramMessages(l: Login, ms: seq<Message>, k: nat): bytes
    requires k < |ms|
    requires VerdictOn(ms[k]) == WantsScram ==> k + 1 < |ms| && IsServerFirst(ms[k + 1], l.nonce)
  {
    if VerdictOn(ms[k]) == WantsScram
    then FirstSent(l.cred.user, l.nonce) + FinalSent(l.hs, l.cred.user, l.cred.password, l.nonce, ms[k + 1]) else []
  }

  /** What the proxy's loop sends at its decision (RepliesInOrder says what before it): the two messages of
      the exchange if the server asked for SASL, and nothing otherwise. */
  lemma LoginSends(l: Login, ms: seq<Message>, k: nat, rest: bytes, writes: nat)
    requires AllFit(ms) && DecidedAt(LoginRules(l), ms, k) && (VerdictOn(ms[k]) == WantsScram ==> writes >= 2)
    ensures VerdictOn(ms[k]) == WantsScram ==> IsServerFirst(ms[k + 1], l.nonce)
    ensures ExchangeReplies(LoginRules(l), ms, k, rest, writes) == ScramMessages(l, ms, k)
  {
    if VerdictOn(ms[k]) == WantsScram {
      ExchangeMessages(l, ms, k);
      ExchangeSends(l, ms[k + 1..], rest, writes);
    }
  }

  lemma NoErrorInDecided(r: Rules, ms: seq<Message>, k: nat)
    requires DecidedAt(r, ms, k) && r.verdict == VerdictOn
    requires r.verdict(ms[k]) == WantsScram ==> forall i :: k < i < k + 4 ==> ms[i].kind != ERROR_RESPONSE
    ensures forall i :: 0 <= i < |ms| ==> ms[i].kind != ERROR_RESPONSE
    ensures ms[|ms| - 1].kind == READY_FOR_QUERY
  {
    var t := if r.verdict(ms[k]) == Granted then k + 1 else k + 4;
    assert forall i :: t <= i < |ms| ==> ms[i] == ms[t..][i - t];
    forall i | 0 <= i < k ensures ms[i].kind != ERROR_RESPONSE {
      assert Undecided(r, ms[i]);
    }
  }

  lemma ExchangeMessages(l: Login, ms: seq<Message>, k: nat)
    requires k + 4 <= |ms| && LoginRules(l).completes(ms[k + 1..k + 4])
    ensures IsServerFirst(ms[k + 1], l.nonce) && HasCode(ms[k + 1], SASL_CONTINUE)
    ensures var raw := ParseAuthentication(ms[k + 1]).value.1;
            && IsServerFinal(ms[k + 2], ExpectedSignature(l.hs, l.cred.password, FirstBare(l.cred.user, l.nonce),
                                                          ParseServerFirst(raw).value, raw))
            && HasCode(ms[k + 2], SASL_FINAL) && HasCode(ms[k + 3], AUTH_OK)
  {
    var a := ms[k + 1..k + 4];
    assert a[0] == ms[k + 1] && a[1] == ms[k + 2] && a[2] == ms[k + 3];
  }

  /** The server signature of RFC 5802, section 3, for the server-first-message raw. */
  function RfcSignature(l: Login, raw: bytes, sf: ServerFirst): bytes
  {
    var serverKey := l.hs.HMAC(l.hs.Hi(l.cred.password, sf.salt, sf.iterations), "Server Key");
    var clientFirst := "n=" + SaslEscape(l.cred.user) + ",r=" + l.nonce;
    l.hs.HMAC(serverKey, clientFirst + "," + raw + "," + ("c=" + Std64("n,,") + ",r=" + sf.nonce))
  }

  /** The SASL request at message i was followed by a full mutual authentication before message ok: a
      server-first-message whose nonce extends the client's, and a server-final-message whose text
      decodes to the signature of RFC 5802, section 3, under the client's own password. */
  predicate MutuallyAuthenticated(l: Login, ms: seq<Message>, i: nat, ok: nat)
    requires ok < |ms|
  {
    && i + 3 == ok
    && HasCode(ms[i + 1], 11) && HasCode(ms[i + 2], 12)
    && var raw, final := ParseAuthentication(ms[i + 1]).value.1, ParseAuthentication(ms[i + 2]).value.1;
    && ParseServerFirst(raw).Some?
    && var sf := ParseServerFirst(raw).value;
    && l.nonce <= sf.nonce
    && "v=" <= final && ReadStd64(final[2..]) == Some(RfcSignature(l, raw, sf))
  }

  lemma UndecidedCodes(r: Rules, m: Message)
    requires r.verdict == VerdictOn && Undecided(r, m)
    ensures !HasCode(m, AUTH_OK) && !HasCode(m, AUTH_SASL)
  {
  }

  lemma GrantedCode(m: Message)
    ensures VerdictOn(m) == Granted ==> HasCode(m, AUTH_OK)
    ensures VerdictOn(m) == WantsScram ==> HasCode(m, AUTH_SASL)
    ensures HasCode(m, SASL_CONTINUE) || HasCode(m, SASL_FINAL) ==> !HasCode(m, AUTH_OK) && !HasCode(m, AUTH_SASL)
    ensures HasCode(m, SASL_CONTINUE) || HasCode(m, SASL_FINAL) || HasCode(m, AUTH_OK) || HasCode(m, AUTH_SASL) ==> m.kind == AUTHENTICATION
  {
  }

  /** The AuthenticationOK of an exchange is its third message, and the first in the run. */
  lemma ScramPosition(l: Login, ms: seq<Message>, k: nat)
    requires DecidedAt(LoginRules(l), ms, k) && VerdictOn(ms[k]) == WantsScram
    ensures k + 3 < |ms| && HasCode(ms[k + 3], AUTH_OK) && MutuallyAuthenticated(l, ms, k, k + 3)
    ensures forall i :: k <= i < k + 3 ==> !HasCode(ms[i], AUTH_OK) && (HasCode(ms[i], AUTH_SASL) ==> i == k)
  {
    ExchangeMessages(l, ms, k);
    GrantedCode(ms[k]);
    GrantedCode(ms[k + 1]);
    GrantedCode(ms[k + 2]);
  }

  lemma ScramKinds(l: Login, ms: seq<Message>, k: nat)
    requires DecidedAt(LoginRules(l), ms, k) && VerdictOn(ms[k]) == WantsScram
    ensures forall i :: k < i < k + 4 ==> ms[i].kind != ERROR_RESPONSE
  {
    ExchangeMessages(l, ms, k);
    GrantedCode(ms[k + 1]);
    GrantedCode(ms[k + 2]);
    GrantedCode(ms[k + 3]);
  }

  lemma UndecidedBefore(l: Login, ms: seq<Message>, k: nat)
    requires DecidedAt(LoginRules(l), ms, k)
    ensures forall i :: 0 <= i < k ==> !HasCode(ms[i], AUTH_OK) && !HasCode(ms[i], AUTH_SASL)
  {
    forall i | 0 <= i < k ensures !HasCode(ms[i], AUTH_OK) && !HasCode(ms[i], AUTH_SASL) {
      UndecidedCodes(LoginRules(l), ms[i]);
    }
  }

  /** Where the AuthenticationOK of a decided run stands. */
  lemma OkPosition(l: Login, ms: seq<Message>, k: nat) returns (ok: nat)
    requires DecidedAt(LoginRules(l), ms, k)
    ensures ok < |ms| && HasCode(ms[ok], AUTH_OK)
    ensures forall i :: 0 <= i < |ms| ==> ms[i].kind != ERROR_RESPONSE
    ensures ms[|ms| - 1].kind == READY_FOR_QUERY
    ensures forall i :: 0 <= i < ok ==> !HasCode(ms[i], AUTH_OK)
    ensures forall i :: 0 <= i < ok && HasCode(ms[i], AUTH_SASL) ==> MutuallyAuthenticated(l, ms, i, ok)
  {
    UndecidedBefore(l, ms, k);
    if VerdictOn(ms[k]) == WantsScram {
      ScramPosition(l, ms, k);
      ScramKinds(l, ms, k);
      ok := k + 3;
    } else {
      GrantedCode(ms[k]);
      ok := k;
    }
    NoErrorInDecided(LoginRules(l), ms, k);
  }

  /** Safety: a connection is only handed back after the stream held an AuthenticationOK, and not
      another before it, and at the end a ReadyForQuery, with no ErrorResponse among the messages
      read; and if any message asked for SASL, then before that AuthenticationOK the server sent a
      nonce extending the client's and the signature the client expected. */
  lemma HandshakeSafety(l: Login, s: bytes, writes: nat) returns (ms: seq<Message>, ok: nat)
    requires Accepts(LoginRules(l), s, writes).Some?
    ensures s == EncodeAll(ms) + Accepts(LoginRules(l), s, writes).value
    ensures ok < |ms| && HasCode(ms[ok], 0) && ms[|ms| - 1].kind == 'Z'
    ensures forall i :: 0 <= i < |ms| ==> ms[i].kind != 'E'
    ensures forall i :: 0 <= i < ok ==> !HasCode(ms[i], 0)
    ensures forall i :: 0 <= i < ok && HasCode(ms[i], 10) ==> MutuallyAuthenticated(l, ms, i, ok)
  {
    var k;
    ms, k := AcceptsSound(LoginRules(l), s, writes);
    ok := OkPosition(l, ms, k);
  }

  /** Conversely, three messages that authenticate mutually complete the exchange: nothing else is asked
      of them. */
  lemma ExchangeExactly(l: Login, request: Message, first: Message, final: Message, last: Message)
    ensures LoginRules(l).completes([first, final, last]) <==>
            MutuallyAuthenticated(l, [request, first, final, last], 0, 3) && HasCode(last, 0)
  {
  }

  // ---------------------------------------------------------------- the verdict, in bytes

  lemma {:induction false} ContainsExactly(hay: bytes, needle: bytes)
    ensures Contains(hay, needle) <==> exists i :: 0 <= i <= |hay| && needle <= hay[i..]
  {
    assert hay[0..] == hay;
    if needle <= hay {
    } else if hay != [] {
      ContainsExactly(hay[1..], needle);
      if i :| 0 <= i <= |hay| && needle <= hay[i..] {
        assert i > 0 ==> hay[1..][i - 1..] == hay[i..];
      }
      if j :| 0 <= j <= |hay[1..]| && needle <= hay[1..][j..] {
        assert hay[1..][j..] == hay[j + 1..];
      }
    } else {
      assert forall i :: 0 <= i <= |hay| ==> hay[i..] == [];
    }
  }

  /** What the loop makes of every message: an error response and every authentication request it does
      not support are refused; other kinds are ignored; codes 0, 3, 5 and 10 are served, the last if the
      list names the mechanism. */
  lemma VerdictExactly(m: Message)
    ensures VerdictOn(m)
         == if m.kind == 'E' then Refused
            else if m.kind != 'R' then Ignored
            else if |m.payload| < 4 then Refused
            else
              var code := Signed32(FromBigEndian32(m.payload[..4]));
              if code == 0 then Granted
              else if code == 3 || code == 5 then WantsPassword
              else if code == 10 && exists i :: 0 <= i <= |m.payload[4..]| && "SCRAM-SHA-256" <= m.payload[4..][i..] then WantsScram
              else Refused
  {
    if |m.payload| >= 4 { ContainsExactly(m.payload[4..], MECHANISM); }
  }

  // ---------------------------------------------------------------- hexadecimal digests

  /** Two lower-case digits for each byte, the high one first. */
  lemma {:induction false} HexReads(b: bytes, i: nat)
    requires i < |b|
    ensures |Hex(b)| == 2 * |b| && HexPair(Hex(b)[2 * i], Hex(b)[2 * i + 1], b[i])
  {
    var rest := Hex(b[1..]);
    if |b| > 1 { HexReads(b[1..], if i > 0 then i - 1 else 0); }
    assert i > 0 ==> Hex(b)[2 * i] == rest[2 * (i - 1)] && Hex(b)[2 * i + 1] == rest[2 * (i - 1) + 1];
  }

  predicate IsLowerHex(c: byte) { '0' <= c <= '9' || 'a' <= c <= 'f' }

  function LowerHexValue(c: byte): int
    requires IsLowerHex(c)
  {
    if c <= '9' then c as int - '0' as int else c as int - 'a' as int + 10
  }

  predicate HexPair(high: byte, low: byte, b: byte)
  {
    IsLowerHex(high) && IsLowerHex(low) && LowerHexValue(high) * 16 + LowerHexValue(low) == b as int
  }
}
