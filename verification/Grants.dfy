/** What a module may publish and subscribe to on the event bus: the grants of
    internal/natsauth/permissions.go, the subjects of internal/eventbus/subjects.go, and the language
    of subjects the grants allow. */
module Grants {
  import opened Text
  import opened Sorting

  const STREAM_NAME: bytes := "BOOTH_EVENTS"

  // ---------------------------------------------------------------- the two grammars

  /** [a-z][a-z0-9]* */
  predicate IsName(t: bytes)
  {
    t != [] && 'a' <= t[0] <= 'z' && forall i :: 0 <= i < |t| ==> 'a' <= t[i] <= 'z' || '0' <= t[i] <= '9'
  }

  /** Two or more dotted tokens: a name first, then names or, in a pattern, "*". */
  predicate IsPattern(p: bytes)
  {
    var ts := Split(p, '.');
    |ts| >= 2 && IsName(ts[0]) && forall i :: 1 <= i < |ts| ==> IsName(ts[i]) || ts[i] == "*"
  }

  predicate IsEventType(e: bytes)
  {
    var ts := Split(e, '.');
    |ts| >= 2 && forall i :: 0 <= i < |ts| ==> IsName(ts[i])
  }

  predicate IsWorkspace(w: bytes)
  {
    w != [] && forall i :: 0 <= i < |w| ==> 'a' <= w[i] <= 'z' || '0' <= w[i] <= '9' || w[i] == '-'
  }

  /** eventbus.Subject. */
  function Subject(workspace: bytes, eventType: bytes): Option<bytes>
  {
    if !IsWorkspace(workspace) || !IsEventType(eventType) then None
    else Some(Dotted(["booth", workspace, eventType]))
  }

  function Dotted(tokens: seq<bytes>): bytes { Join(tokens, '.') }

  // ---------------------------------------------------------------- NATS subject matching

  /** Token by token: "*" is any one token, a final ">" is one or more. */
  predicate TokensMatch(pattern: seq<bytes>, subject: seq<bytes>)
  {
    if pattern == [] then subject == []
    else if pattern == [">"] then subject != []
    else subject != [] && (pattern[0] == "*" || pattern[0] == subject[0]) && TokensMatch(pattern[1..], subject[1..])
  }

  predicate Matches(pattern: bytes, subject: bytes)
  {
    TokensMatch(Split(pattern, '.'), Split(subject, '.'))
  }

  ghost predicate Allows(allow: seq<bytes>, subject: bytes)
  {
    exists g <- allow :: Matches(g, subject)
  }

  // ---------------------------------------------------------------- deriving the grants

  datatype Access = Access(publish: seq<bytes>, subscribe: seq<bytes>)

  datatype Grants = Grants(publishAllow: seq<bytes>, subscribeAllow: seq<bytes>)

  datatype Result = Granted(grants: Grants) | Invalid(pattern: bytes)

  /** The API a subscriber needs, as the tokens in front of the final ">". */
  function ConsumerPrefixes(): (r: seq<seq<bytes>>)
  {
    [["$JS", "API", "CONSUMER", "CREATE", STREAM_NAME],
     ["$JS", "API", "CONSUMER", "DURABLE", "CREATE", STREAM_NAME],
     ["$JS", "API", "CONSUMER", "INFO", STREAM_NAME],
     ["$JS", "API", "CONSUMER", "MSG", "NEXT", STREAM_NAME],
     ["$JS", "ACK", STREAM_NAME],
     ["$JS", "FC", STREAM_NAME]]
  }

  function JetStreamConsumerAPI(): seq<bytes>
  {
    seq(6, i requires 0 <= i < 6 => Dotted(ConsumerPrefixes()[i] + [">"]))
  }

  const INFO_TOKENS: seq<bytes> := ["$JS", "API", "INFO"]
  const STREAM_INFO_TOKENS: seq<bytes> := ["$JS", "API", "STREAM", "INFO", STREAM_NAME]

  /** The first pattern that is not well formed. */
  function FirstInvalid(patterns: seq<bytes>): (r: Option<bytes>)
    ensures r.None? <==> forall p <- patterns :: IsPattern(p)
    ensures r.Some? ==> r.value in patterns && !IsPattern(r.value)
  {
    if patterns == [] then None
    else if !IsPattern(patterns[0]) then Some(patterns[0])
    else FirstInvalid(patterns[1..])
  }

  function EventGrant(p: bytes): bytes { Dotted(["booth", "*", p]) }

  function EventGrants(patterns: seq<bytes>): (r: seq<bytes>)
    ensures forall g :: g in r <==> exists p <- patterns :: g == EventGrant(p)
  {
    if patterns == [] then []
    else
      var rest := EventGrants(patterns[..|patterns| - 1]);
      var last := patterns[|patterns| - 1];
      assert patterns == patterns[..|patterns| - 1] + [last];
      rest + [EventGrant(last)]
  }

  function Dedupe(s: seq<bytes>): (r: seq<bytes>)
    ensures forall g :: g in r <==> g in s
    ensures forall i, j :: 0 <= i < j < |r| ==> r[i] != r[j]
  {
    if s == [] then []
    else
      var rest, last := Dedupe(s[..|s| - 1]), s[|s| - 1];
      assert s == s[..|s| - 1] + [last];
      if last in s[..|s| - 1] then rest else rest + [last]
  }

  function GrantsOf(access: Option<Access>): Result
  {
    if access.None? || (access.value.publish == [] && access.value.subscribe == []) then Granted(Grants([], []))
    else
      var a := access.value;
      if FirstInvalid(a.publish).Some? then Invalid(FirstInvalid(a.publish).value)
      else if FirstInvalid(a.subscribe).Some? then Invalid(FirstInvalid(a.subscribe).value)
      else
        var consumer := if a.subscribe != [] then JetStreamConsumerAPI() else [];
        Granted(Grants(Dedupe(EventGrants(a.publish) + consumer + [Dotted(INFO_TOKENS), Dotted(STREAM_INFO_TOKENS)]),
                       [Dotted(["_INBOX", ">"])]))
  }

  method DedupeLoop(s: seq<bytes>) returns (out: seq<bytes>)
    ensures out == Dedupe(s)
  {
    var seen: set<bytes> := {};
    out := [];
    for i := 0 to |s|
      invariant out == Dedupe(s[..i])
      invariant forall g :: g in seen <==> g in s[..i]
    {
      assert s[..i + 1][..i] == s[..i] && s[..i + 1][i] == s[i];
      assert s[..i + 1] == s[..i] + [s[i]];
      if s[i] in seen { continue; }
      seen := seen + {s[i]};
      out := out + [s[i]];
    }
    assert s[..|s|] == s;
  }

  /** Where x first occurs. */
  function FirstAt(s: seq<bytes>, x: bytes): (i: nat)
    requires x in s
    ensures i < |s| && s[i] == x && forall j :: 0 <= j < i ==> s[j] != x
  {
    if s[0] == x then 0
    else
      var i := FirstAt(s[1..], x);
      assert forall j :: 0 < j <= i ==> s[j] == s[1..][j - 1];
      i + 1
  }

  lemma FirstAtGrows(s: seq<bytes>, last: bytes, x: bytes)
    requires x in s
    ensures FirstAt(s + [last], x) == FirstAt(s, x)
  {
    var i, j := FirstAt(s, x), FirstAt(s + [last], x);
    assert (s + [last])[i] == x;
    assert forall k :: 0 <= k < |s| ==> (s + [last])[k] == s[k];
  }

  /** The grants keep the order in which they first occur. */
  lemma {:induction false} DedupeInOrder(s: seq<bytes>, i: nat, j: nat)
    requires i < j < |Dedupe(s)|
    ensures Dedupe(s)[i] in s && Dedupe(s)[j] in s && FirstAt(s, Dedupe(s)[i]) < FirstAt(s, Dedupe(s)[j])
  {
    var front, last := s[..|s| - 1], s[|s| - 1];
    InitLast(s);
    var x, y := Dedupe(s)[i], Dedupe(s)[j];
    assert x == Dedupe(front)[i] && x in front;
    FirstAtGrows(front, last, x);
    if j < |Dedupe(front)| {
      DedupeInOrder(front, i, j);
      FirstAtGrows(front, last, y);
    } else {
      assert y == last && y !in front;
    }
  }

  /** The loop over the publish patterns. */
  method PublishGrants(patterns: seq<bytes>) returns (bad: Option<bytes>, allow: seq<bytes>)
    ensures bad == FirstInvalid(patterns)
    ensures bad.None? ==> allow == EventGrants(patterns)
  {
    allow := [];
    for i := 0 to |patterns|
      invariant FirstInvalid(patterns) == FirstInvalid(patterns[i..])
      invariant allow == EventGrants(patterns[..i])
    {
      var p := patterns[i];
      assert patterns[i..][1..] == patterns[i + 1..];
      if !IsPattern(p) { return Some(p), allow; }
      assert patterns[..i + 1][..i] == patterns[..i];
      allow := allow + [EventGrant(p)];
    }
    assert patterns[..|patterns|] == patterns;
    bad := None;
  }

  /** The loop over the subscribe patterns, which are only checked. */
  method CheckPatterns(patterns: seq<bytes>) returns (bad: Option<bytes>)
    ensures bad == FirstInvalid(patterns)
  {
    for i := 0 to |patterns|
      invariant FirstInvalid(patterns) == FirstInvalid(patterns[i..])
    {
      assert patterns[i..][1..] == patterns[i + 1..];
      if !IsPattern(patterns[i]) { return Some(patterns[i]); }
    }
    return None;
  }

  method GrantsFor(access: Option<Access>) returns (r: Result)
    ensures r == GrantsOf(access)
  {
    if access.None? || (access.value.publish == [] && access.value.subscribe == []) {
      return Granted(Grants([], []));
    }
    var a := access.value;
    var bad, allow := PublishGrants(a.publish);
    if bad.Some? { return Invalid(bad.value); }
    bad := CheckPatterns(a.subscribe);
    if bad.Some? { return Invalid(bad.value); }
    ghost var events := allow;
    if a.subscribe != [] { allow := allow + JetStreamConsumerAPI(); }
    assert allow == events + if a.subscribe != [] then JetStreamConsumerAPI() else [];
    allow := allow + [Dotted(INFO_TOKENS), Dotted(STREAM_INFO_TOKENS)];
    allow := DedupeLoop(allow);
    return Granted(Grants(allow, [Dotted(["_INBOX", ">"])]));
  }

  // ---------------------------------------------------------------- how single grants match

  predicate Plain(tokens: seq<bytes>)
  {
    tokens != [] && forall i :: 0 <= i < |tokens| ==> tokens[i] != "*" && tokens[i] != ">" && '.' !in tokens[i]
  }

  lemma {:induction false} PlainMatchesItself(tokens: seq<bytes>, ts: seq<bytes>)
    requires tokens != [] ==> Plain(tokens)
    ensures TokensMatch(tokens, ts) <==> tokens == ts
  {
    if tokens != [] && ts != [] {
      PlainMatchesItself(tokens[1..], ts[1..]);
      assert tokens == [tokens[0]] + tokens[1..] && ts == [ts[0]] + ts[1..];
      assert tokens != [">"] by { assert tokens[0] != ">"; }
    }
  }

  lemma {:induction false} PlainPrefixMatches(prefix: seq<bytes>, ts: seq<bytes>)
    requires prefix != [] ==> Plain(prefix)
    ensures TokensMatch(prefix + [">"], ts) <==> prefix < ts
  {
    var pattern := prefix + [">"];
    if prefix == [] {
      assert pattern == [">"];
    } else {
      assert pattern[0] == prefix[0] && pattern[1..] == prefix[1..] + [">"];
      assert pattern != [">"] by { assert |pattern| > 1; }
      if ts != [] {
        PlainPrefixMatches(prefix[1..], ts[1..]);
        assert prefix == [prefix[0]] + prefix[1..] && ts == [ts[0]] + ts[1..];
        if prefix < ts { assert prefix[0] == ts[0] && prefix[1..] == ts[1..][..|prefix| - 1]; }
        if prefix[0] == ts[0] && prefix[1..] < ts[1..] {
          assert ts[..|prefix|] == [ts[0]] + ts[1..][..|prefix| - 1];
        }
      }
    }
  }

  /** A well-formed pattern matches token for token, so it never reaches a longer event type. */
  lemma PatternByTokens(p: bytes, ts: seq<bytes>)
    requires IsPattern(p)
    ensures TokensMatch(Split(p, '.'), ts) <==> SameButStars(Split(p, '.'), ts)
  {
    var tokens := Split(p, '.');
    forall i | 0 <= i < |tokens| ensures tokens[i] != ">" {
      assert i == 0 ==> IsName(tokens[i]);
    }
    WithoutTail(tokens, ts);
  }

  predicate SameButStars(tokens: seq<bytes>, ts: seq<bytes>)
  {
    |tokens| == |ts| && forall i :: 0 <= i < |ts| ==> tokens[i] == "*" || tokens[i] == ts[i]
  }

  lemma {:induction false} WithoutTail(tokens: seq<bytes>, ts: seq<bytes>)
    requires forall i :: 0 <= i < |tokens| ==> tokens[i] != ">"
    ensures TokensMatch(tokens, ts) <==> SameButStars(tokens, ts)
  {
    if tokens != [] && ts != [] {
      WithoutTail(tokens[1..], ts[1..]);
      assert tokens != [">"] by { assert tokens[0] != ">"; }
      assert forall i :: 1 <= i < |tokens| ==> tokens[i] == tokens[1..][i - 1];
      assert forall i :: 1 <= i < |ts| ==> ts[i] == ts[1..][i - 1];
    }
  }

  lemma SplitDotted(a: bytes, b: bytes, c: bytes)
    requires '.' !in a && '.' !in b
    ensures Split(Dotted([a, b, c]), '.') == [a, b] + Split(c, '.')
  {
    JoinThree(a, b, c, '.');
    SplitThree(a, b, c, '.');
  }

  /** Any workspace, then the event type. */
  predicate EventTokensMatch(tokens: seq<bytes>, ts: seq<bytes>)
  {
    |ts| >= 2 && ts[0] == "booth" && TokensMatch(tokens, ts[2..])
  }

  lemma AnyWorkspace(tokens: seq<bytes>, ts: seq<bytes>)
    ensures TokensMatch(["booth", "*"] + tokens, ts) <==> EventTokensMatch(tokens, ts)
  {
    var pattern := ["booth", "*"] + tokens;
    assert pattern[0] == "booth" && pattern[1..] == ["*"] + tokens && pattern[1..][1..] == tokens;
    assert pattern != [">"] && pattern[1..] != [">"] by { assert pattern[1] == "*"; }
    if |ts| >= 2 { assert ts[1..][1..] == ts[2..]; }
  }

  lemma EventGrantMatches(p: bytes, s: bytes)
    ensures Matches(EventGrant(p), s) <==> EventTokensMatch(Split(p, '.'), Split(s, '.'))
  {
    SplitDotted("booth", "*", p);
    AnyWorkspace(Split(p, '.'), Split(s, '.'));
  }

  lemma PlainGrantMatches(tokens: seq<bytes>, s: bytes)
    requires Plain(tokens)
    ensures Matches(Dotted(tokens), s) <==> tokens == Split(s, '.')
    ensures Matches(Dotted(tokens + [">"]), s) <==> tokens < Split(s, '.')
  {
    SplitJoin(tokens, '.');
    SplitJoin(tokens + [">"], '.');
    PlainMatchesItself(tokens, Split(s, '.'));
    PlainPrefixMatches(tokens, Split(s, '.'));
  }

  lemma ApiIsPlain(i: nat)
    requires i < 6
    ensures Plain(ConsumerPrefixes()[i])
  {
    var tokens := ConsumerPrefixes()[i];
    assert '.' !in STREAM_NAME;
  }

  lemma InfoIsPlain()
    ensures Plain(INFO_TOKENS) && Plain(STREAM_INFO_TOKENS)
  {
    assert '.' !in STREAM_NAME;
  }

  // ---------------------------------------------------------------- the language of a declaration

  ghost predicate EventSubject(publish: seq<bytes>, ts: seq<bytes>)
  {
    exists p <- publish :: EventTokensMatch(Split(p, '.'), ts)
  }

  /** One or more tokens after one of six prefixes. */
  predicate ApiSubject(ts: seq<bytes>)
  {
    || ["$JS", "API", "CONSUMER", "CREATE", "BOOTH_EVENTS"] < ts
    || ["$JS", "API", "CONSUMER", "DURABLE", "CREATE", "BOOTH_EVENTS"] < ts
    || ["$JS", "API", "CONSUMER", "INFO", "BOOTH_EVENTS"] < ts
    || ["$JS", "API", "CONSUMER", "MSG", "NEXT", "BOOTH_EVENTS"] < ts
    || ["$JS", "ACK", "BOOTH_EVENTS"] < ts
    || ["$JS", "FC", "BOOTH_EVENTS"] < ts
  }

  lemma SixPrefixes(ts: seq<bytes>)
    ensures ApiSubject(ts) <==> exists i :: 0 <= i < 6 && ConsumerPrefixes()[i] < ts
  {
    var prefixes := ConsumerPrefixes();
    assert prefixes[0] < ts || prefixes[1] < ts || prefixes[2] < ts || prefixes[3] < ts || prefixes[4] < ts || prefixes[5] < ts <==> ApiSubject(ts);
  }

  /** Everything a declaration lets its module publish to, and nothing else. */
  ghost predicate InLanguage(a: Access, ts: seq<bytes>)
  {
    || EventSubject(a.publish, ts)
    || (a.subscribe != [] && ApiSubject(ts))
    || ts == ["$JS", "API", "INFO"] || ts == ["$JS", "API", "STREAM", "INFO", "BOOTH_EVENTS"]
  }

  lemma AllowsEvents(publish: seq<bytes>, s: bytes)
    ensures Allows(EventGrants(publish), s) <==> EventSubject(publish, Split(s, '.'))
  {
    if Allows(EventGrants(publish), s) {
      var g :| g in EventGrants(publish) && Matches(g, s);
      var p :| p in publish && g == EventGrant(p);
      EventGrantMatches(p, s);
    }
    if EventSubject(publish, Split(s, '.')) {
      var p :| p in publish && EventTokensMatch(Split(p, '.'), Split(s, '.'));
      EventGrantMatches(p, s);
      assert EventGrant(p) in EventGrants(publish);
    }
  }

  lemma AllowsApi(s: bytes)
    ensures Allows(JetStreamConsumerAPI(), s) <==> ApiSubject(Split(s, '.'))
  {
    var api := JetStreamConsumerAPI();
    SixPrefixes(Split(s, '.'));
    forall i | 0 <= i < 6 ensures Matches(api[i], s) <==> ConsumerPrefixes()[i] < Split(s, '.') {
      ApiIsPlain(i);
      PlainGrantMatches(ConsumerPrefixes()[i], s);
    }
    if Allows(api, s) {
      var g :| g in api && Matches(g, s);
      var i :| 0 <= i < |api| && api[i] == g;
      assert ConsumerPrefixes()[i] < Split(s, '.');
    }
    if ApiSubject(Split(s, '.')) {
      var i :| 0 <= i < 6 && ConsumerPrefixes()[i] < Split(s, '.');
      assert api[i] in api && Matches(api[i], s);
    }
  }

  lemma AllowsInfo(s: bytes)
    ensures Allows([Dotted(INFO_TOKENS), Dotted(STREAM_INFO_TOKENS)], s)
       <==> Split(s, '.') == INFO_TOKENS || Split(s, '.') == STREAM_INFO_TOKENS
  {
    InfoIsPlain();
    PlainGrantMatches(INFO_TOKENS, s);
    PlainGrantMatches(STREAM_INFO_TOKENS, s);
    var l := [Dotted(INFO_TOKENS), Dotted(STREAM_INFO_TOKENS)];
    assert l[0] in l && l[1] in l;
  }

  lemma AllowsAppend(a: seq<bytes>, b: seq<bytes>, s: bytes)
    ensures Allows(a + b, s) <==> Allows(a, s) || Allows(b, s)
  {
    if Allows(a, s) {
      var g :| g in a && Matches(g, s);
      assert g in a + b;
    }
    if Allows(b, s) {
      var g :| g in b && Matches(g, s);
      assert g in a + b;
    }
  }

  lemma AllowsDedupe(a: seq<bytes>, s: bytes)
    ensures Allows(Dedupe(a), s) <==> Allows(a, s)
  {
    if Allows(a, s) {
      var g :| g in a && Matches(g, s);
      assert g in Dedupe(a);
    }
  }

  lemma InboxText()
    ensures Dotted(["_INBOX", ">"]) == "_INBOX.>"
  {
    JoinTwo("_INBOX", ">", '.');
    assert "_INBOX" + ['.'] + ">" == "_INBOX.>";
  }

  /** Granting fails exactly when some declared pattern is malformed; what is granted then allows
      publishing exactly the subjects of the declaration's language, and subscribing to the private
      inbox only. A module that declares nothing gets nothing. */
  lemma GrantLanguage(access: Option<Access>, s: bytes)
    ensures GrantsOf(access).Invalid? <==>
            access.Some? && exists p :: (p in access.value.publish || p in access.value.subscribe) && !IsPattern(p)
    ensures GrantsOf(access).Granted? ==>
            var g := GrantsOf(access).grants;
            if access.None? || (access.value.publish == [] && access.value.subscribe == []) then g == Grants([], [])
            else (Allows(g.publishAllow, s) <==> InLanguage(access.value, Split(s, '.')))
                 && g.subscribeAllow == ["_INBOX.>"]
  {
    InboxText();
    if access.Some? && GrantsOf(access).Granted? && !(access.value.publish == [] && access.value.subscribe == []) {
      var a := access.value;
      var consumer := if a.subscribe != [] then JetStreamConsumerAPI() else [];
      var info := [Dotted(INFO_TOKENS), Dotted(STREAM_INFO_TOKENS)];
      AllowsDedupe(EventGrants(a.publish) + consumer + info, s);
      AllowsAppend(EventGrants(a.publish) + consumer, info, s);
      AllowsAppend(EventGrants(a.publish), consumer, s);
      AllowsEvents(a.publish, s);
      AllowsApi(s);
      AllowsInfo(s);
    }
  }

  /** What is refused: the first pattern that is not well formed, published ones first. */
  lemma InvalidExactly(a: Access, p: bytes)
    ensures GrantsOf(Some(a)) == Invalid(p) <==> exists i :: FirstBad(a.publish + a.subscribe, p, i)
  {
    FirstInvalidExactly(a.publish, p);
    FirstInvalidExactly(a.subscribe, p);
    FirstInvalidExactly(a.publish + a.subscribe, p);
    FirstInvalidAppend(a.publish, a.subscribe);
  }

  ghost predicate FirstBad(patterns: seq<bytes>, p: bytes, i: nat)
  {
    i < |patterns| && patterns[i] == p && !IsPattern(p) && forall j :: 0 <= j < i ==> IsPattern(patterns[j])
  }

  lemma {:induction false} FirstInvalidAppend(a: seq<bytes>, b: seq<bytes>)
    ensures FirstInvalid(a + b) == if FirstInvalid(a).Some? then FirstInvalid(a) else FirstInvalid(b)
  {
    if a == [] {
      assert a + b == b;
    } else {
      assert (a + b)[1..] == a[1..] + b;
      FirstInvalidAppend(a[1..], b);
    }
  }

  lemma {:induction false} FirstInvalidExactly(patterns: seq<bytes>, p: bytes)
    ensures FirstInvalid(patterns) == Some(p) <==> exists i :: FirstBad(patterns, p, i)
  {
    if patterns != [] && IsPattern(patterns[0]) {
      FirstInvalidExactly(patterns[1..], p);
      if i: nat :| FirstBad(patterns[1..], p, i) {
        assert forall j :: 0 < j <= i ==> patterns[j] == patterns[1..][j - 1];
        assert FirstBad(patterns, p, i + 1);
      }
      if i: nat :| FirstBad(patterns, p, i) {
        assert FirstBad(patterns[1..], p, i - 1);
      }
    } else if patterns != [] && patterns[0] == p {
      assert FirstBad(patterns, p, 0);
    }
  }

  /** What a pattern grants, and the subject of an event, as text. */
  lemma EventTexts(p: bytes, workspace: bytes)
    ensures EventGrant(p) == "booth" + "." + "*" + "." + p
    ensures Subject(workspace, p).Some? ==> Subject(workspace, p).value == "booth" + "." + workspace + "." + p
  {
    JoinThree("booth", "*", p, '.');
    JoinThree("booth", workspace, p, '.');
  }

  lemma OnlyEvents(a: Access, ts: seq<bytes>)
    requires ts != [] && ts[0] == "booth"
    ensures InLanguage(a, ts) <==> EventSubject(a.publish, ts)
  {
    SixPrefixes(ts);
    forall i | 0 <= i < 6 ensures !(ConsumerPrefixes()[i] < ts) {
      Differ(ConsumerPrefixes()[i], ts, 0);
    }
    assert INFO_TOKENS[0] != ts[0] && STREAM_INFO_TOKENS[0] != ts[0];
  }

  lemma EventSubjectExactly(publish: seq<bytes>, workspace: bytes, tokens: seq<bytes>)
    requires forall p <- publish :: IsPattern(p)
    ensures EventSubject(publish, ["booth", workspace] + tokens) <==> exists p <- publish :: SameButStars(Split(p, '.'), tokens)
  {
    assert (["booth", workspace] + tokens)[2..] == tokens;
    forall p | p in publish
      ensures EventTokensMatch(Split(p, '.'), ["booth", workspace] + tokens) <==> SameButStars(Split(p, '.'), tokens)
    {
      PatternByTokens(p, tokens);
    }
  }

  /** An event of a valid workspace may be published if and only if some declared pattern matches its
      type token for token. */
  lemma PublishExactly(a: Access, workspace: bytes, eventType: bytes)
    requires GrantsOf(Some(a)).Granted? && Subject(workspace, eventType).Some?
    ensures Allows(GrantsOf(Some(a)).grants.publishAllow, Subject(workspace, eventType).value)
       <==> exists p <- a.publish :: SameButStars(Split(p, '.'), Split(eventType, '.'))
  {
    var s := Subject(workspace, eventType).value;
    GrantLanguage(Some(a), s);
    SplitDotted("booth", workspace, eventType);
    if a.publish == [] && a.subscribe == [] {
      assert !Allows([], s);
    } else {
      OnlyEvents(a, Split(s, '.'));
      EventSubjectExactly(a.publish, workspace, Split(eventType, '.'));
    }
  }

  /** The API that deletes, purges or changes a stream, deletes a message, or deletes a consumer. */
  predicate Destructive(ts: seq<bytes>)
  {
    && |ts| >= 4 && ts[0] == "$JS" && ts[1] == "API"
    && (   (ts[2] == "STREAM" && (ts[3] == "DELETE" || ts[3] == "PURGE" || ts[3] == "UPDATE"))
        || (ts[2] == "STREAM" && ts[3] == "MSG" && |ts| >= 5 && ts[4] == "DELETE")
        || (ts[2] == "CONSUMER" && ts[3] == "DELETE"))
  }

  lemma ApiIsNotDestructive(ts: seq<bytes>)
    requires Destructive(ts)
    ensures !ApiSubject(ts)
  {
    SixPrefixes(ts);
    forall i | 0 <= i < 6 ensures !(ConsumerPrefixes()[i] < ts) {
      Differ(ConsumerPrefixes()[i], ts, if i >= 4 then 1 else if ts[2] == "STREAM" then 2 else 3);
    }
  }

  /** No declaration, whatever its patterns, allows publishing to any of that API. */
  lemma NothingDestructive(access: Option<Access>, s: bytes)
    requires Destructive(Split(s, '.')) && GrantsOf(access).Granted?
    ensures !Allows(GrantsOf(access).grants.publishAllow, s)
  {
    GrantLanguage(access, s);
    ApiIsNotDestructive(Split(s, '.'));
  }

  lemma Differ(prefix: seq<bytes>, ts: seq<bytes>, m: nat)
    requires m < |prefix| && m < |ts| && prefix[m] != ts[m]
    ensures !(prefix < ts)
  {
  }

  // ---------------------------------------------------------------- the fingerprint of the grants

  /** What Grants.Hash feeds to SHA-256. */
  function HashInput(g: Grants): bytes
  {
    Join(SortStrings(g.publishAllow), '\n') + ['\0'] + Join(SortStrings(g.subscribeAllow), '\n')
  }

  /** The publish grants come first, one to a line, and a NUL stands in front of the others. */
  lemma HashText(a: bytes, b: bytes, c: bytes)
    requires Leq(a, b)
    ensures HashInput(Grants([a, b], [c])) == a + ['\n'] + b + ['\0'] + c
  {
    SortPair(a, b);
    SortOne(c);
    JoinTwo(a, b, '\n');
  }

  lemma SortOne(c: bytes)
    ensures SortStrings([c]) == [c]
  {
    SortStringsSorts([c]);
    SortedUnique(SortStrings([c]), [c]);
  }

  lemma SortPair(a: bytes, b: bytes)
    requires Leq(a, b)
    ensures SortStrings([a, b]) == [a, b]
  {
    SortStringsSorts([a, b]);
    SortedUnique(SortStrings([a, b]), [a, b]);
  }

  predicate Clean(s: bytes) { '\n' !in s && '\0' !in s }

  predicate AllClean(parts: seq<bytes>) { forall p <- parts :: p != [] && Clean(p) }

  lemma {:induction false} CleanJoin(parts: seq<bytes>, sep: byte)
    requires sep != '\0' && forall i :: 0 <= i < |parts| ==> Clean(parts[i])
    ensures '\0' !in Join(parts, sep) && (sep != '\n' ==> Clean(Join(parts, sep)))
  {
    if |parts| > 1 { CleanJoin(parts[1..], sep); }
  }

  lemma PatternIsClean(p: bytes)
    requires IsPattern(p)
    ensures Clean(p)
  {
    var ts := Split(p, '.');
    JoinSplit(p, '.');
    forall i | 0 <= i < |ts| ensures Clean(ts[i]) {
      assert IsName(ts[i]) || ts[i] == "*";
    }
    CleanJoin(ts, '.');
  }

  lemma DottedIsClean(tokens: seq<bytes>)
    requires |tokens| >= 2 && forall i :: 0 <= i < |tokens| ==> Clean(tokens[i])
    ensures Dotted(tokens) != [] && Clean(Dotted(tokens))
  {
    CleanJoin(tokens, '.');
  }

  lemma EventGrantsClean(publish: seq<bytes>)
    requires forall p <- publish :: IsPattern(p)
    ensures AllClean(EventGrants(publish))
  {
    forall g | g in EventGrants(publish) ensures g != [] && Clean(g) {
      var p :| p in publish && g == EventGrant(p);
      PatternIsClean(p);
      DottedIsClean(["booth", "*", p]);
    }
  }

  lemma ApiClean()
    ensures AllClean(JetStreamConsumerAPI()) && AllClean([Dotted(INFO_TOKENS), Dotted(STREAM_INFO_TOKENS)])
  {
    forall i | 0 <= i < 6 ensures JetStreamConsumerAPI()[i] != [] && Clean(JetStreamConsumerAPI()[i]) {
      DottedIsClean(ConsumerPrefixes()[i] + [">"]);
    }
    DottedIsClean(INFO_TOKENS);
    DottedIsClean(STREAM_INFO_TOKENS);
  }

  /** No grant is empty or holds a line break or NUL. */
  lemma GrantsAreClean(access: Option<Access>)
    requires GrantsOf(access).Granted?
    ensures AllClean(GrantsOf(access).grants.publishAllow) && AllClean(GrantsOf(access).grants.subscribeAllow)
  {
    if access.Some? && !(access.value.publish == [] && access.value.subscribe == []) {
      EventGrantsClean(access.value.publish);
      ApiClean();
      DottedIsClean(["_INBOX", ">"]);
    }
  }

  lemma SortedClean(s: seq<bytes>)
    requires AllClean(s)
    ensures AllClean(SortStrings(s))
  {
    SortStringsMembers(s);
  }

  lemma JoinLinesInjective(a: seq<bytes>, b: seq<bytes>)
    requires AllClean(a) && AllClean(b) && Join(a, '\n') == Join(b, '\n')
    ensures a == b
  {
    if a != [] { SplitJoin(a, '\n'); assert a[0] in a && Join(a, '\n') != []; }
    if b != [] { SplitJoin(b, '\n'); assert b[0] in b && Join(b, '\n') != []; }
  }

  /** Two grants hash the same text exactly when they allow the same lists, in whatever order. */
  lemma HashInputExactly(g: Grants, h: Grants)
    requires AllClean(g.publishAllow) && AllClean(g.subscribeAllow) && AllClean(h.publishAllow) && AllClean(h.subscribeAllow)
    ensures HashInput(g) == HashInput(h) <==>
            multiset(g.publishAllow) == multiset(h.publishAllow) && multiset(g.subscribeAllow) == multiset(h.subscribeAllow)
  {
    var gp, gs := SortStrings(g.publishAllow), SortStrings(g.subscribeAllow);
    var hp, hs := SortStrings(h.publishAllow), SortStrings(h.subscribeAllow);
    SortedClean(g.publishAllow); SortedClean(g.subscribeAllow);
    SortedClean(h.publishAllow); SortedClean(h.subscribeAllow);
    SortStringsSorts(g.publishAllow); SortStringsSorts(g.subscribeAllow);
    SortStringsSorts(h.publishAllow); SortStringsSorts(h.subscribeAllow);
    if multiset(g.publishAllow) == multiset(h.publishAllow) && multiset(g.subscribeAllow) == multiset(h.subscribeAllow) {
      SortStringsOrderFree(g.publishAllow, h.publishAllow);
      SortStringsOrderFree(g.subscribeAllow, h.subscribeAllow);
    }
    if HashInput(g) == HashInput(h) {
      CleanJoin(gp, '\n');
      CleanJoin(hp, '\n');
      CutAtNul(Join(gp, '\n'), Join(gs, '\n'), Join(hp, '\n'), Join(hs, '\n'));
      JoinLinesInjective(gp, hp);
      JoinLinesInjective(gs, hs);
    }
  }

  lemma CutAtNul(a: bytes, x: bytes, b: bytes, y: bytes)
    requires '\0' !in a && '\0' !in b && a + ['\0'] + x == b + ['\0'] + y
    ensures a == b && x == y
  {
    IndexOfFirst(a, '\0', x);
    IndexOfFirst(b, '\0', y);
    assert a == (a + ['\0'] + x)[..|a|] && x == (a + ['\0'] + x)[|a| + 1..];
    assert b == (b + ['\0'] + y)[..|b|] && y == (b + ['\0'] + y)[|b| + 1..];
  }
}
