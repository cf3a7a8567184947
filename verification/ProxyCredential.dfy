/** The credential state of the proxy in internal/sidecar/postgres.go, fed by the renewer. */
module ProxyCredential {
  import opened Text
  import opened Handshake
  import opened Renewal

  const JSON_NULL: bytes := "null"

  /** White space bytes.TrimSpace removes, restricted to ASCII. */
  predicate IsSpace(c: byte) { c == ' ' || 9 <= c as int <= 13 }

  function TrimSpace(s: bytes): bytes
  {
    if s == [] then []
    else if IsSpace(s[0]) then TrimSpace(s[1..])
    else if IsSpace(s[|s| - 1]) then TrimSpace(s[..|s| - 1])
    else s
  }

  predicate NullOrAbsent(raw: bytes) { TrimSpace(raw) == [] || TrimSpace(raw) == JSON_NULL }

  /** White space of ASCII: a tab, line feed, vertical tab, form feed, carriage return or space. */
  predicate AllSpace(s: bytes)
  {
    forall c <- s :: c as int == 9 || c as int == 10 || c as int == 11 || c as int == 12 || c as int == 13 || c as int == 32
  }

  lemma {:induction false} TrimSplits(s: bytes) returns (before: bytes, after: bytes)
    ensures s == before + (TrimSpace(s) + after) && AllSpace(before) && AllSpace(after)
    decreases |s|
  {
    before, after := [], [];
    if s != [] {
      if IsSpace(s[0]) {
        before, after := TrimSplits(s[1..]);
        HeadTail(s);
        Assoc([s[0]], before, TrimSpace(s[1..]) + after);
        before := [s[0]] + before;
      } else if IsSpace(s[|s| - 1]) {
        before, after := TrimSplits(s[..|s| - 1]);
        InitLast(s);
        MoveLast(before, TrimSpace(s[..|s| - 1]), after, [s[|s| - 1]]);
        after := after + [s[|s| - 1]];
      }
    }
  }

  lemma MoveLast(a: bytes, b: bytes, c: bytes, d: bytes)
    ensures a + (b + c) + d == a + (b + (c + d))
  {
  }

  lemma {:induction false} TrimLeading(before: bytes, s: bytes)
    requires AllSpace(before)
    ensures TrimSpace(before + s) == TrimSpace(s)
    decreases |before|
  {
    if before == [] {
      assert before + s == s;
    } else {
      assert forall c <- before[1..] :: c in before;
      assert before[0] in before && (before + s)[1..] == before[1..] + s;
      TrimLeading(before[1..], s);
    }
  }

  lemma {:induction false} TrimTrailing(s: bytes, after: bytes)
    requires AllSpace(after) && s != [] && !IsSpace(s[0]) && !IsSpace(s[|s| - 1])
    ensures TrimSpace(s + after) == s
    decreases |after|
  {
    if after == [] {
      assert s + after == s;
    } else {
      var n := |after| - 1;
      assert forall c <- after[..n] :: c in after;
      assert after[n] in after && (s + after)[..|s| + n] == s + after[..n];
      TrimTrailing(s, after[..n]);
    }
  }

  /** A credential counts as null or absent exactly when it is `null` between any ASCII white space, or
      white space alone. */
  lemma NullOrAbsentExactly(raw: bytes)
    ensures NullOrAbsent(raw) <==>
            AllSpace(raw) || exists before: bytes, after: bytes :: raw == before + "null" + after && AllSpace(before) && AllSpace(after)
  {
    if NullOrAbsent(raw) {
      var before, after := TrimSplits(raw);
      Assoc(before, TrimSpace(raw), after);
      assert TrimSpace(raw) == [] ==> raw == before + after;
    }
    if AllSpace(raw) {
      TrimLeading(raw, []);
      assert raw + [] == raw;
    }
    if before: bytes, after: bytes :| raw == before + "null" + after && AllSpace(before) && AllSpace(after) {
      TrimTrailing("null", after);
      TrimLeading(before, "null" + after);
      Assoc(before, "null", after);
    }
  }

  datatype ProxyState = ProxyState(current: Option<Credential>, revoked: bool)

  const NOTHING_YET := ProxyState(None, false)

  /** What the proxy answers a client that asks for a connection. */
  datatype Answer = Forward(cred: Credential) | NoLeaseYet | AccessRevoked

  /** One atomic store. */
  datatype Store = SetCurrent(cred: Option<Credential>) | SetRevoked(revoked: bool)

  function Performed(st: ProxyState, s: Store): ProxyState
  {
    match s
    case SetCurrent(cred) => st.(current := cred)
    case SetRevoked(revoked) => st.(revoked := revoked)
  }

  /** What the two atomics hold after a sequence of stores. */
  function Memory(stores: seq<Store>): ProxyState
  {
    if stores == [] then NOTHING_YET else Performed(Memory(stores[..|stores| - 1]), stores[|stores| - 1])
  }

  lemma MemoryNext(stores: seq<Store>, s: Store)
    ensures Memory(stores + [s]) == Performed(Memory(stores), s)
  {
    assert (stores + [s])[..|stores|] == stores;
  }

  /** The answer of a client that loads the credential in one state and, if there is none, the flag in
      another. */
  function AnswerAt(first: ProxyState, second: ProxyState): Answer
  {
    if first.current.Some? then Forward(first.current.value) else if second.revoked then AccessRevoked else NoLeaseYet
  }

  /** The proxy of one process: how it decodes a credential, its two atomics, and the log of stores to
      them. Only the renewer's goroutine stores; every client has a goroutine that loads. */
  class PostgresProxy {
    const decode: bytes -> Option<Credential>
    var current: Option<Credential>
    var revoked: bool
    ghost var stores: seq<Store>

    ghost predicate Valid()
      reads this
    {
      ProxyState(current, revoked) == Memory(stores)
    }

    constructor (decode: bytes -> Option<Credential>)
      ensures Valid() && stores == [] && this.decode == decode
    {
      this.decode := decode;
      current, revoked, stores := None, false, [];
    }

    method Perform(s: Store)
      requires Valid()
      modifies this
      ensures Valid() && stores == old(stores) + [s]
    {
      MemoryNext(stores, s);
      match s {
        case SetCurrent(cred) => current := cred;
        case SetRevoked(flag) => revoked := flag;
      }
      stores := stores + [s];
    }

    method SetCredential(resp: Response)
      requires Valid()
      modifies this
      ensures Valid() && stores == old(stores) + StoresOf(decode, resp)
    {
      AppendTwo(stores, SetCurrent(None), SetRevoked(true));
      AppendTwo(stores, SetCurrent(decode(resp.credential)), SetRevoked(false));
      if NullOrAbsent(resp.credential) {
        Perform(SetCurrent(None));
        Perform(SetRevoked(true));
        return;
      }
      var cred := decode(resp.credential);
      if cred.None? { return; }
      Perform(SetCurrent(cred));
      Perform(SetRevoked(false));
    }

    /** `meanwhile` is what the renewer's goroutine stores between the client's two loads. */
    method AnswerClient(meanwhile: seq<Store>) returns (a: Answer)
      requires Valid()
      modifies this
      ensures Valid() && stores == old(stores) + meanwhile
      ensures a == AnswerAt(Memory(old(stores)), Memory(old(stores) + meanwhile))
    {
      var cred := current;
      for i := 0 to |meanwhile|
        invariant Valid() && stores == old(stores) + meanwhile[..i]
      {
        TakeNext(meanwhile, i);
        Perform(meanwhile[i]);
      }
      assert meanwhile[..|meanwhile|] == meanwhile;
      if cred.None? {
        return if revoked then AccessRevoked else NoLeaseYet;
      }
      return Forward(cred.value);
    }
  }

  /** The stores one response causes, in order. */
  function StoresOf(decode: bytes -> Option<Credential>, resp: Response): seq<Store>
  {
    if NullOrAbsent(resp.credential) then [SetCurrent(None), SetRevoked(true)]
    else
      match decode(resp.credential)
      case None => []
      case Some(cred) => [SetCurrent(Some(cred)), SetRevoked(false)]
  }

  function AllStores(decode: bytes -> Option<Credential>, resps: seq<Response>): seq<Store>
  {
    if resps == [] then []
    else AllStores(decode, resps[..|resps| - 1]) + StoresOf(decode, resps[|resps| - 1])
  }

  function Told(decode: bytes -> Option<Credential>, st: ProxyState, resp: Response): ProxyState
  {
    if NullOrAbsent(resp.credential) then ProxyState(None, true)
    else
      match decode(resp.credential)
      case None => st
      case Some(cred) => ProxyState(Some(cred), false)
  }

  /** The state after a sequence of responses. */
  function ToldAll(decode: bytes -> Option<Credential>, resps: seq<Response>): ProxyState
  {
    if resps == [] then NOTHING_YET
    else Told(decode, ToldAll(decode, resps[..|resps| - 1]), resps[|resps| - 1])
  }

  predicate Meaningful(decode: bytes -> Option<Credential>, resp: Response)
  {
    NullOrAbsent(resp.credential) || decode(resp.credential).Some?
  }

  /** No response in resps[from..] says anything. */
  ghost predicate SilentFrom(decode: bytes -> Option<Credential>, resps: seq<Response>, from: nat)
  {
    forall i :: from <= i < |resps| ==> !Meaningful(decode, resps[i])
  }

  lemma {:induction false} SilenceKeeps(decode: bytes -> Option<Credential>, resps: seq<Response>, from: nat)
    requires from <= |resps| && SilentFrom(decode, resps, from)
    ensures ToldAll(decode, resps) == ToldAll(decode, resps[..from])
    decreases |resps|
  {
    var n := |resps| - 1;
    if from == |resps| {
      assert resps[..from] == resps;
    } else {
      assert forall i :: 0 <= i < n ==> resps[..n][i] == resps[i];
      SilenceKeeps(decode, resps[..n], from);
      TakeTake(resps, n, from);
      assert !Meaningful(decode, resps[n]);
    }
  }

  lemma {:induction false} MemoryIsTold(decode: bytes -> Option<Credential>, resps: seq<Response>)
    ensures Memory(AllStores(decode, resps)) == ToldAll(decode, resps)
  {
    if resps != [] {
      var n := |resps| - 1;
      MemoryIsTold(decode, resps[..n]);
      MemoryOfCall(decode, AllStores(decode, resps[..n]), resps[n]);
    }
  }

  lemma MemoryOfCall(decode: bytes -> Option<Credential>, before: seq<Store>, resp: Response)
    ensures Memory(before + StoresOf(decode, resp)) == Told(decode, Memory(before), resp)
  {
    var stores := StoresOf(decode, resp);
    if stores == [] {
      assert before + stores == before;
    } else {
      MemoryNext(before, stores[0]);
      MemoryNext(before + [stores[0]], stores[1]);
      assert before + stores == before + [stores[0]] + [stores[1]];
    }
  }

  lemma {:induction false} RevokedHoldsNone(decode: bytes -> Option<Credential>, resps: seq<Response>)
    ensures ToldAll(decode, resps).revoked ==> ToldAll(decode, resps).current.None?
  {
    if resps != [] { RevokedHoldsNone(decode, resps[..|resps| - 1]); }
  }

  /** What the last meaningful response makes of the pair. */
  function Decided(decode: bytes -> Option<Credential>, resp: Response): ProxyState
  {
    if NullOrAbsent(resp.credential) then ProxyState(None, true) else ProxyState(decode(resp.credential), false)
  }

  lemma MeaningfulDecides(decode: bytes -> Option<Credential>, before: seq<Response>, resp: Response)
    requires Meaningful(decode, resp)
    ensures ToldAll(decode, before + [resp]) == Decided(decode, resp)
  {
    assert (before + [resp])[..|before|] == before;
  }

  lemma LastDecides(decode: bytes -> Option<Credential>, resps: seq<Response>, last: nat)
    requires last < |resps| && Meaningful(decode, resps[last]) && SilentFrom(decode, resps, last + 1)
    ensures ToldAll(decode, resps) == Decided(decode, resps[last])
  {
    SilenceKeeps(decode, resps, last + 1);
    TakeNext(resps, last);
    MeaningfulDecides(decode, resps[..last], resps[last]);
  }

  /** Between two calls of setCredential the pair depends on the last response that is null or
      decodable and on nothing else: with none the proxy is as it started, after a null it is revoked
      without a credential, and otherwise it holds that credential and is not revoked. In particular,
      revoked then implies no credential. */
  lemma LastWord(decode: bytes -> Option<Credential>, resps: seq<Response>)
    ensures var st := ToldAll(decode, resps);
            && Memory(AllStores(decode, resps)) == st
            && (st.revoked ==> st.current.None?)
            && (SilentFrom(decode, resps, 0) ==> st == NOTHING_YET)
            && (forall last :: 0 <= last < |resps| && Meaningful(decode, resps[last]) && SilentFrom(decode, resps, last + 1)
                  ==> st == Decided(decode, resps[last]))
  {
    MemoryIsTold(decode, resps);
    RevokedHoldsNone(decode, resps);
    if SilentFrom(decode, resps, 0) { SilenceKeeps(decode, resps, 0); }
    forall last | 0 <= last < |resps| && Meaningful(decode, resps[last]) && SilentFrom(decode, resps, last + 1)
      ensures ToldAll(decode, resps) == Decided(decode, resps[last])
    {
      LastDecides(decode, resps, last);
    }
  }

  /** The last meaningful response is a null. */
  ghost predicate EndsRevoked(decode: bytes -> Option<Credential>, resps: seq<Response>)
  {
    exists last :: 0 <= last < |resps| && NullOrAbsent(resps[last].credential) && SilentFrom(decode, resps, last + 1)
  }

  /** The last meaningful response holds this credential. */
  ghost predicate EndsHolding(decode: bytes -> Option<Credential>, resps: seq<Response>, cred: Credential)
  {
    exists last :: 0 <= last < |resps| && !NullOrAbsent(resps[last].credential) && decode(resps[last].credential) == Some(cred)
                   && SilentFrom(decode, resps, last + 1)
  }

  /** The answer to a client whose loads overlap no setCredential: decided by the last meaningful
      response. */
  lemma AnswerDecided(decode: bytes -> Option<Credential>, resps: seq<Response>)
    ensures var st := Memory(AllStores(decode, resps));
            var answer := AnswerAt(st, st);
            && (answer.NoLeaseYet? <==> SilentFrom(decode, resps, 0))
            && (answer.AccessRevoked? <==> EndsRevoked(decode, resps))
            && (forall cred :: answer == Forward(cred) <==> EndsHolding(decode, resps, cred))
  {
    MemoryIsTold(decode, resps);
    if SilentFrom(decode, resps, 0) {
      SilenceKeeps(decode, resps, 0);
      assert forall i :: 0 <= i < |resps| ==> !Meaningful(decode, resps[i]);
    } else {
      var last := LastMeaningful(decode, resps);
      LastDecides(decode, resps, last);
      forall k | 0 <= k < |resps| && Meaningful(decode, resps[k]) && SilentFrom(decode, resps, k + 1) ensures k == last {
        assert Meaningful(decode, resps[k]);
      }
    }
  }

  /** Composed with the renewer: at every point of every run, a client whose loads overlap no
      setCredential is answered by the last meaningful lease among the broker's successes: access is
      reported revoked exactly when that one was null, and otherwise its credential is used. */
  lemma AnswerInEveryRun(decode: bytes -> Option<Credential>, cfg: Config, attempts: seq<Attempt>, turns: seq<Turn>)
    ensures var leases := Successes(RunOf(cfg, attempts, turns).0.calls);
            var st := Memory(AllStores(decode, RunOf(cfg, attempts, turns).0.handed));
            var answer := AnswerAt(st, st);
            && (answer.NoLeaseYet? <==> SilentFrom(decode, leases, 0))
            && (answer.AccessRevoked? <==> EndsRevoked(decode, leases))
            && (forall cred :: answer == Forward(cred) <==> EndsHolding(decode, leases, cred))
  {
    RunsAreFaithful(cfg, attempts, turns);
    AnswerDecided(decode, RunOf(cfg, attempts, turns).0.handed);
  }

  lemma {:induction false} LastMeaningful(decode: bytes -> Option<Credential>, resps: seq<Response>) returns (last: nat)
    requires !SilentFrom(decode, resps, 0)
    ensures last < |resps| && Meaningful(decode, resps[last]) && SilentFrom(decode, resps, last + 1)
  {
    last := |resps| - 1;
    while !Meaningful(decode, resps[last])
      invariant 0 <= last < |resps|
      invariant forall i :: last < i < |resps| ==> !Meaningful(decode, resps[i])
      decreases last
    {
      last := last - 1;
    }
  }

  // ---------------------------------------------------------------- every interleaving

  /** What the meaningful responses say, in order: a credential, or None for a null. Each of them causes
      two stores, every other response none. */
  function Words(decode: bytes -> Option<Credential>, resps: seq<Response>): seq<Option<Credential>>
  {
    if resps == [] then []
    else
      var n := |resps| - 1;
      Words(decode, resps[..n])
      + if NullOrAbsent(resps[n].credential) then [None]
        else match decode(resps[n].credential) case None => [] case Some(cred) => [Some(cred)]
  }

  lemma {:induction false} WordsComeFrom(decode: bytes -> Option<Credential>, resps: seq<Response>)
    ensures None in Words(decode, resps) ==> exists m <- resps :: NullOrAbsent(m.credential)
    ensures forall cred :: Some(cred) in Words(decode, resps) ==>
              exists m <- resps :: !NullOrAbsent(m.credential) && decode(m.credential) == Some(cred)
  {
    if resps != [] {
      var n := |resps| - 1;
      WordsComeFrom(decode, resps[..n]);
      assert resps == resps[..n] + [resps[n]];
    }
  }

  function Pair(word: Option<Credential>): seq<Store> { [SetCurrent(word), SetRevoked(word.None?)] }

  function Pairs(words: seq<Option<Credential>>): (r: seq<Store>)
    ensures |r| == 2 * |words|
  {
    if words == [] then [] else Pairs(words[..|words| - 1]) + Pair(words[|words| - 1])
  }

  lemma PairsNext(words: seq<Option<Credential>>, word: Option<Credential>)
    ensures Pairs(words + [word]) == Pairs(words) + Pair(word)
  {
    assert (words + [word])[..|words|] == words;
  }

  lemma {:induction false} StoresArePairs(decode: bytes -> Option<Credential>, resps: seq<Response>)
    ensures AllStores(decode, resps) == Pairs(Words(decode, resps))
  {
    if resps != [] {
      var n := |resps| - 1;
      var before := Words(decode, resps[..n]);
      StoresArePairs(decode, resps[..n]);
      if NullOrAbsent(resps[n].credential) {
        PairsNext(before, None);
      } else if decode(resps[n].credential).Some? {
        PairsNext(before, decode(resps[n].credential));
      } else {
        assert Words(decode, resps) == before;
        assert AllStores(decode, resps[..n]) + [] == AllStores(decode, resps[..n]);
      }
    }
  }

  /** The state between the p-th and the next call. */
  function Between(words: seq<Option<Credential>>, p: nat): ProxyState
    requires p <= |words|
  {
    if p == 0 then NOTHING_YET else ProxyState(words[p - 1], words[p - 1].None?)
  }

  lemma {:induction false} PairsTaken(words: seq<Option<Credential>>, p: nat)
    requires p <= |words|
    ensures Pairs(words)[..2 * p] == Pairs(words[..p])
    ensures p < |words| ==> Pairs(words)[..2 * p + 1] == Pairs(words[..p]) + [SetCurrent(words[p])]
    decreases |words|
  {
    if p == |words| {
      assert words[..p] == words && Pairs(words)[..2 * p] == Pairs(words);
    } else {
      var n := |words| - 1;
      var last := Pair(words[n]);
      PairsTaken(words[..n], p);
      TakeTake(words, n, p);
      TakePrefix(Pairs(words[..n]), last, 2 * p);
      if p < n {
        TakePrefix(Pairs(words[..n]), last, 2 * p + 1);
      } else {
        assert words[..p] == words[..n];
        assert (Pairs(words[..n]) + last)[..2 * n + 1] == Pairs(words[..n]) + [last[0]];
      }
    }
  }

  lemma TakePrefix<T>(a: seq<T>, b: seq<T>, n: nat)
    requires n <= |a|
    ensures (a + b)[..n] == a[..n]
  {
  }

  lemma {:induction false} MemoryBetween(words: seq<Option<Credential>>)
    ensures Memory(Pairs(words)) == Between(words, |words|)
  {
    if words != [] {
      var before, word := Pairs(words[..|words| - 1]), words[|words| - 1];
      MemoryBetween(words[..|words| - 1]);
      MemoryNext(before, SetCurrent(word));
      MemoryNext(before + [SetCurrent(word)], SetRevoked(word.None?));
      assert Pairs(words) == before + [SetCurrent(word)] + [SetRevoked(word.None?)];
    }
  }

  lemma MemoryTaken(words: seq<Option<Credential>>, p: nat)
    requires p <= |words|
    ensures Memory(Pairs(words)[..2 * p]) == Between(words, p)
    ensures p < |words| ==> Memory(Pairs(words)[..2 * p + 1]) == Between(words, p).(current := words[p])
  {
    PairsTaken(words, p);
    MemoryBetween(words[..p]);
    assert Between(words[..p], p) == Between(words, p);
    if p < |words| { MemoryNext(Pairs(words[..p]), SetCurrent(words[p])); }
  }

  /** The state after k stores: the credential runs ahead of the flag by at most one response. */
  function StateAt(words: seq<Option<Credential>>, k: nat): ProxyState
    requires k <= 2 * |words|
  {
    if k % 2 == 0 then Between(words, k / 2) else Between(words, k / 2).(current := words[k / 2])
  }

  lemma MemoryAt(words: seq<Option<Credential>>, k: nat)
    requires k <= 2 * |words|
    ensures Memory(Pairs(words)[..k]) == StateAt(words, k)
  {
    var p := k / 2;
    MemoryTaken(words, p);
    assert k == if k % 2 == 0 then 2 * p else 2 * p + 1;
  }

  /** The two atomics contradict each other (revoked, with a credential) exactly between the two stores
      of a grant that comes right after a null. */
  lemma TornExactly(decode: bytes -> Option<Credential>, resps: seq<Response>, k: nat)
    requires k <= |AllStores(decode, resps)|
    ensures var words := Words(decode, resps);
            var st := Memory(AllStores(decode, resps)[..k]);
            |AllStores(decode, resps)| == 2 * |words|
            && (st.revoked && st.current.Some? <==> k % 2 == 1 && k >= 3 && words[k / 2].Some? && words[k / 2 - 1].None?)
  {
    StoresArePairs(decode, resps);
    MemoryAt(Words(decode, resps), k);
  }

  /** A client's answer when its first load comes after j stores and its second after k. */
  function Answered(decode: bytes -> Option<Credential>, resps: seq<Response>, j: nat, k: nat): Answer
    requires j <= k <= |AllStores(decode, resps)|
  {
    AnswerAt(Memory(AllStores(decode, resps)[..j]), Memory(AllStores(decode, resps)[..k]))
  }

  /** The answer from what had been begun at the first load and finished at the second. */
  function AnswerFrom(words: seq<Option<Credential>>, begun: nat, finished: nat): Answer
    requires begun <= |words| && finished <= |words|
  {
    if begun > 0 && words[begun - 1].Some? then Forward(words[begun - 1].value)
    else if finished > 0 && words[finished - 1].None? then AccessRevoked
    else NoLeaseYet
  }

  lemma StatesAnswer(words: seq<Option<Credential>>, j: nat, k: nat)
    requires j <= k <= 2 * |words|
    ensures AnswerAt(StateAt(words, j), StateAt(words, k)) == AnswerFrom(words, (j + 1) / 2, k / 2)
  {
  }

  /** Every interleaving of a client's two loads with the stores: a forwarded credential is what the
      last response begun before the first load says; when that one is a null, or there is none, the
      client is told of a revocation exactly when the last response finished before the second load
      is a null. */
  lemma AnsweredExactly(decode: bytes -> Option<Credential>, resps: seq<Response>, j: nat, k: nat)
    requires j <= k <= |AllStores(decode, resps)|
    ensures |AllStores(decode, resps)| == 2 * |Words(decode, resps)|
    ensures Answered(decode, resps, j, k) == AnswerFrom(Words(decode, resps), (j + 1) / 2, k / 2)
  {
    var words := Words(decode, resps);
    StoresArePairs(decode, resps);
    MemoryAt(words, j);
    MemoryAt(words, k);
    StatesAnswer(words, j, k);
  }

  /** Nobody is told of a revocation before a null came, and nobody is forwarded with anything but a
      credential the broker granted. */
  lemma NothingInvented(decode: bytes -> Option<Credential>, resps: seq<Response>, j: nat, k: nat)
    requires j <= k <= |AllStores(decode, resps)|
    ensures Answered(decode, resps, j, k).AccessRevoked? ==> exists m <- resps :: NullOrAbsent(m.credential)
    ensures Answered(decode, resps, j, k).Forward? ==>
              exists m <- resps :: !NullOrAbsent(m.credential) && decode(m.credential) == Some(Answered(decode, resps, j, k).cred)
  {
    var words := Words(decode, resps);
    AnsweredExactly(decode, resps, j, k);
    WordsComeFrom(decode, resps);
    var begun, finished := (j + 1) / 2, k / 2;
    if begun > 0 { assert words[begun - 1] in words; }
    if finished > 0 { assert words[finished - 1] in words; }
  }

  /** Both loads fall between the two stores of a null that is the first response or comes right after
      a grant. */
  predicate InsideRevocation(words: seq<Option<Credential>>, j: nat, k: nat)
    requires j <= k <= 2 * |words|
  {
    j % 2 == 1 && k == j && (j == 1 || words[j / 2 - 1].Some?)
  }

  /** A later grant was stored whole between the first load and the second, and no null after it. */
  predicate AcrossRegrant(words: seq<Option<Credential>>, j: nat, k: nat)
    requires j <= k <= 2 * |words|
  {
    k / 2 > (j + 1) / 2 && words[k / 2 - 1].Some?
  }

  /** A client whose first load comes after the beginning of a meaningful response is told "no lease
      yet" exactly when that response is a null and the loads fall inside its revocation or across a
      re-grant. */
  lemma ToldTooEarlyExactly(decode: bytes -> Option<Credential>, resps: seq<Response>, j: nat, k: nat)
    requires 0 < j <= k <= |AllStores(decode, resps)|
    ensures |AllStores(decode, resps)| == 2 * |Words(decode, resps)|
    ensures var words := Words(decode, resps);
            Answered(decode, resps, j, k).NoLeaseYet?
            <==> words[(j - 1) / 2].None? && (InsideRevocation(words, j, k) || AcrossRegrant(words, j, k))
  {
    AnsweredExactly(decode, resps, j, k);
    EarlyExactly(Words(decode, resps), j, k);
  }

  lemma EarlyExactly(words: seq<Option<Credential>>, j: nat, k: nat)
    requires 0 < j <= k <= 2 * |words|
    ensures AnswerFrom(words, (j + 1) / 2, k / 2).NoLeaseYet?
       <==> words[(j - 1) / 2].None? && (InsideRevocation(words, j, k) || AcrossRegrant(words, j, k))
  {
    var begun, finished := (j + 1) / 2, k / 2;
    assert begun - 1 == (j - 1) / 2 && finished >= begun - 1;
    if finished == begun - 1 { assert j == k && j % 2 == 1; }
  }

  /** Both windows are real. After a grant and a null, a client that loads between the null's two
      stores is told that there never was a lease; after a null and a grant, so is one that loads the
      credential before the grant and the flag after it. */
  lemma ToldTooEarly(decode: bytes -> Option<Credential>, grant: Response, nothing: Response)
    requires !NullOrAbsent(grant.credential) && decode(grant.credential).Some? && NullOrAbsent(nothing.credential)
    ensures |AllStores(decode, [grant, nothing])| == 4 == |AllStores(decode, [nothing, grant])|
    ensures Answered(decode, [grant, nothing], 3, 3) == NoLeaseYet
    ensures Answered(decode, [nothing, grant], 2, 4) == NoLeaseYet
  {
    WordsOfTwo(decode, grant, nothing);
    WordsOfTwo(decode, nothing, grant);
    var cred := decode(grant.credential);
    assert Words(decode, [grant, nothing]) == [cred, None] && Words(decode, [nothing, grant]) == [None, cred];
    AnsweredExactly(decode, [grant, nothing], 0, 0);
    AnsweredExactly(decode, [nothing, grant], 0, 0);
    AnsweredExactly(decode, [grant, nothing], 3, 3);
    AnsweredExactly(decode, [nothing, grant], 2, 4);
  }

  lemma WordsOfTwo(decode: bytes -> Option<Credential>, first: Response, second: Response)
    ensures Words(decode, [first, second]) == Words(decode, [first]) + Words(decode, [second])
    ensures Words(decode, [first]) == if NullOrAbsent(first.credential) then [None]
                                      else if decode(first.credential).Some? then [decode(first.credential)] else []
    ensures Words(decode, [second]) == if NullOrAbsent(second.credential) then [None]
                                       else if decode(second.credential).Some? then [decode(second.credential)] else []
  {
    assert [first, second][..1] == [first] && [first][..0] == [] && [second][..0] == [];
  }

  /** Composed with the renewer: the responses of a run are the broker's successes. */
  lemma AnswersAcrossRun(decode: bytes -> Option<Credential>, cfg: Config, attempts: seq<Attempt>, turns: seq<Turn>, j: nat, k: nat)
    requires j <= k <= |AllStores(decode, RunOf(cfg, attempts, turns).0.handed)|
    ensures var leases := Successes(RunOf(cfg, attempts, turns).0.calls);
            var answer := Answered(decode, RunOf(cfg, attempts, turns).0.handed, j, k);
            && (answer.AccessRevoked? ==> exists m <- leases :: NullOrAbsent(m.credential))
            && (answer.Forward? ==>
                  exists m <- leases :: !NullOrAbsent(m.credential) && decode(m.credential) == Some(answer.cred))
  {
    RunsAreFaithful(cfg, attempts, turns);
    NothingInvented(decode, RunOf(cfg, attempts, turns).0.handed, j, k);
  }
}
