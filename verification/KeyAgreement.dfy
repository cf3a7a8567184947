/** The create-then-adopt protocol by which any number of core replicas agree on generated keys:
    internal/natsauth/bootstrap.go, internal/workload/keys.go and EnsureAdminPassword in
    internal/dbprov/provision.go, as steps over a shared Secret and ConfigMap. One step is one API
    call together with the local work that follows it. */
module KeyAgreement {
  import opened Text

  datatype Protocol = BusKeys | WorkloadKeys | AdminPassword

  /** The key material a Secret holds. */
  type Keys = bytes

  /** What is left abstract: which key material parses, and the public name of its account. */
  datatype Crypto = Crypto(usable: Keys -> bool, pub: Keys -> bytes)

  datatype Conf = Blank | Rendered(from: Keys)

  datatype ConfigMap = ConfigMap(annotation: bytes, conf: Conf, version: nat)

  datatype Shared = Shared(secret: Option<Keys>, config: Option<ConfigMap>)

  /** Where a replica is: Creating after it found no Secret, Adopting after it lost the race,
      Holding before it reads the ConfigMap, Rendering before it writes it (the version read, if any). */
  datatype Replica =
    | Start
    | Creating(drawn: Keys)
    | Adopting
    | Holding(keys: Keys)
    | Rendering(keys: Keys, seen: Option<nat>)
    | Done(keys: Keys)
    | Failed

  /** An API call succeeds, fails without effect, or takes effect and still reports an error. */
  datatype Fault = Fine | ErrorBefore | ErrorAfter

  /** Keys the replica has just read from the Secret; adopted ones are those of another replica. */
  function Loaded(x: Crypto, p: Protocol, k: Keys, adopted: bool): Replica
  {
    match p
    case BusKeys => if x.usable(k) then Holding(k) else Failed
    case WorkloadKeys => if x.usable(k) then Done(k) else Failed
    case AdminPassword => if adopted || k != [] then Done(k) else Failed
  }

  /** Keys the replica has just stored itself. */
  function Stored(x: Crypto, p: Protocol, k: Keys): Replica
  {
    match p
    case BusKeys => if x.usable(k) then Holding(k) else Failed
    case _ => Done(k)
  }

  function RenderedConfig(x: Crypto, k: Keys, version: nat): ConfigMap
  {
    ConfigMap(x.pub(k), Rendered(k), version)
  }

  predicate UpToDate(x: Crypto, c: ConfigMap, k: Keys) { c.annotation == x.pub(k) && c.conf != Blank }

  function Next(x: Crypto, p: Protocol, sh: Shared, r: Replica, fault: Fault, drawn: Keys): (Shared, Replica)
  {
    match r
    case Start =>
      if fault != Fine then (sh, Failed)
      else if sh.secret.None? then (sh, Creating(drawn))
      else (sh, Loaded(x, p, sh.secret.value, false))
    case Creating(k) =>
      if fault == ErrorBefore then (sh, Failed)
      else if sh.secret.None? then
        (sh.(secret := Some(k)), if fault == Fine then Stored(x, p, k) else Failed)
      else (sh, if fault == Fine then Adopting else Failed)
    case Adopting =>
      if fault != Fine || sh.secret.None? then (sh, Failed)
      else (sh, Loaded(x, p, sh.secret.value, true))
    case Holding(k) =>
      if fault != Fine then (sh, Failed)
      else
        (match sh.config
         case None => (sh, Rendering(k, None))
         case Some(c) => (sh, if UpToDate(x, c, k) then Done(k) else Rendering(k, Some(c.version))))
    case Rendering(k, seen) =>
      var after := if fault == Fine then Done(k) else Failed;
      if fault == ErrorBefore then (sh, Failed)
      else if seen.None? then
        if sh.config.None? then (sh.(config := Some(RenderedConfig(x, k, 0))), after) else (sh, after)
      else if sh.config.Some? && sh.config.value.version == seen.value then
        (sh.(config := Some(RenderedConfig(x, k, seen.value + 1))), after)
      else (sh, Failed)
    case _ => (sh, r)
  }

  // ---------------------------------------------------------------- runs of many replicas

  datatype World = World(shared: Shared, replicas: seq<Replica>)

  /** A replica makes its next API call, or its process starts over. */
  datatype Input = Call(replica: nat, fault: Fault, drawn: Keys) | Restart(replica: nat)

  function Step(x: Crypto, p: Protocol, w: World, i: Input): World
  {
    if i.replica >= |w.replicas| then w
    else if i.Restart? then w.(replicas := w.replicas[i.replica := Start])
    else
      var (sh, r) := Next(x, p, w.shared, w.replicas[i.replica], i.fault, i.drawn);
      World(sh, w.replicas[i.replica := r])
  }

  function Run(x: Crypto, p: Protocol, w: World, inputs: seq<Input>): World
    decreases |inputs|
  {
    if inputs == [] then w else Run(x, p, Step(x, p, w, inputs[0]), inputs[1..])
  }

  /** A ConfigMap found at the start was rendered by an earlier run, or was left blank. */
  predicate Honest(x: Crypto, config: Option<ConfigMap>)
  {
    config.Some? && config.value.conf.Rendered? ==> config.value.annotation == x.pub(config.value.conf.from)
  }

  predicate Initial(x: Crypto, w: World)
  {
    Honest(x, w.shared.config) && forall i :: 0 <= i < |w.replicas| ==> w.replicas[i] == Start
  }

  /** Rendered from keys of the same account as k. */
  predicate RenderedFor(x: Crypto, config: Option<ConfigMap>, k: Keys)
  {
    config.Some? && config.value.annotation == x.pub(k) && config.value.conf.Rendered? && x.pub(config.value.conf.from) == x.pub(k)
  }

  predicate ReplicaOk(x: Crypto, p: Protocol, sh: Shared, r: Replica)
  {
    match r
    case Adopting => sh.secret.Some?
    case Holding(k) => sh.secret == Some(k) && x.usable(k)
    case Rendering(k, seen) =>
      sh.secret == Some(k) && x.usable(k) && (seen.None? ==> sh.config.None? || RenderedFor(x, sh.config, k))
    case Done(k) => sh.secret == Some(k) && (p.BusKeys? ==> x.usable(k) && RenderedFor(x, sh.config, k))
    case _ => true
  }

  predicate Agreement(x: Crypto, p: Protocol, w: World)
  {
    Honest(x, w.shared.config) && forall i :: 0 <= i < |w.replicas| ==> ReplicaOk(x, p, w.shared, w.replicas[i])
  }

  /** What one call may do to the shared objects while the caller's keys are the stored ones. */
  predicate Allowed(x: Crypto, a: Shared, b: Shared)
  {
    && (a.secret.Some? ==> b.secret == a.secret)
    && (b.config == a.config || (b.secret.Some? && RenderedFor(x, b.config, b.secret.value)))
  }

  lemma NextKeeps(x: Crypto, p: Protocol, sh: Shared, r: Replica, fault: Fault, drawn: Keys)
    requires Honest(x, sh.config) && ReplicaOk(x, p, sh, r)
    ensures var (sh', r') := Next(x, p, sh, r, fault, drawn);
            Honest(x, sh'.config) && ReplicaOk(x, p, sh', r') && Allowed(x, sh, sh')
  {
  }

  lemma OthersKeep(x: Crypto, p: Protocol, a: Shared, b: Shared, r: Replica)
    requires ReplicaOk(x, p, a, r) && Allowed(x, a, b)
    ensures ReplicaOk(x, p, b, r)
  {
  }

  lemma StepKeeps(x: Crypto, p: Protocol, w: World, i: Input)
    requires Agreement(x, p, w)
    ensures Agreement(x, p, Step(x, p, w, i)) && Allowed(x, w.shared, Step(x, p, w, i).shared)
  {
    if i.Call? && i.replica < |w.replicas| {
      NextKeeps(x, p, w.shared, w.replicas[i.replica], i.fault, i.drawn);
      var next := Step(x, p, w, i);
      forall j | 0 <= j < |next.replicas| ensures ReplicaOk(x, p, next.shared, next.replicas[j]) {
        if j != i.replica { OthersKeep(x, p, w.shared, next.shared, w.replicas[j]); }
      }
    }
  }

  lemma {:induction false} RunKeeps(x: Crypto, p: Protocol, w: World, inputs: seq<Input>)
    requires Agreement(x, p, w)
    ensures var last := Run(x, p, w, inputs);
            && Agreement(x, p, last)
            && (w.shared.secret.Some? ==> last.shared.secret == w.shared.secret)
            && (forall k :: w.shared.secret == Some(k) && RenderedFor(x, w.shared.config, k) ==> RenderedFor(x, last.shared.config, k))
    decreases |inputs|
  {
    if inputs != [] {
      StepKeeps(x, p, w, inputs[0]);
      RunKeeps(x, p, Step(x, p, w, inputs[0]), inputs[1..]);
    }
  }

  lemma {:induction false} RunSplit(x: Crypto, p: Protocol, w: World, a: seq<Input>, b: seq<Input>)
    ensures Run(x, p, w, a + b) == Run(x, p, Run(x, p, w, a), b)
    decreases |a|
  {
    if a == [] {
      assert a + b == b;
    } else {
      assert (a + b)[1..] == a[1..] + b;
      RunSplit(x, p, Step(x, p, w, a[0]), a[1..], b);
    }
  }

  /** For any number of replicas, in every interleaving of their calls, failures and restarts: stored
      keys never change; a replica that has returned success holds exactly the keys stored then and
      at every later moment; and for the event bus its success leaves a ConfigMap rendered for those
      keys, which no later step un-renders. */
  lemma KeysAgree(x: Crypto, p: Protocol, w: World, before: seq<Input>, later: seq<Input>)
    requires Initial(x, w)
    ensures var mid := Run(x, p, w, before);
            var end := Run(x, p, w, before + later);
            && (mid.shared.secret.Some? ==> end.shared.secret == mid.shared.secret)
            && (forall i :: 0 <= i < |mid.replicas| && mid.replicas[i].Done? ==>
                  && mid.shared.secret == Some(mid.replicas[i].keys) == end.shared.secret
                  && (p.BusKeys? ==> RenderedFor(x, mid.shared.config, mid.replicas[i].keys)
                                     && RenderedFor(x, end.shared.config, mid.replicas[i].keys)))
  {
    RunSplit(x, p, w, before, later);
    RunKeeps(x, p, w, before);
    RunKeeps(x, p, Run(x, p, w, before), later);
  }

  /** Any two successes, at whatever moments of a run, hold the same keys. */
  lemma SuccessesAgree(x: Crypto, p: Protocol, w: World, before: seq<Input>, later: seq<Input>, i: nat, j: nat)
    requires Initial(x, w)
    requires i < |Run(x, p, w, before).replicas| && Run(x, p, w, before).replicas[i].Done?
    requires j < |Run(x, p, w, before + later).replicas| && Run(x, p, w, before + later).replicas[j].Done?
    ensures Run(x, p, w, before).replicas[i].keys == Run(x, p, w, before + later).replicas[j].keys
  {
    KeysAgree(x, p, w, before, later);
    KeysAgree(x, p, w, before + later, []);
    assert before + later + [] == before + later;
  }

  // ---------------------------------------------------------------- rendered from the very keys

  /** Rendered from exactly k, not from other keys of the same account. */
  predicate RenderedFrom(config: Option<ConfigMap>, k: Keys)
  {
    config.Some? && config.value.conf == Rendered(k)
  }

  /** The ConfigMap found at the start was not rendered from other usable keys with the public name of
      an account the Secret holds, or could come to hold. */
  ghost predicate NoTwin(x: Crypto, sh: Shared)
  {
    sh.config.Some? && sh.config.value.conf.Rendered? ==>
      forall k: Keys ::
        (sh.secret.Some? ==> sh.secret.value == k) && x.usable(k) && x.pub(k) == x.pub(sh.config.value.conf.from)
        ==> k == sh.config.value.conf.from
  }

  /** The ConfigMap is still the one found at the start, or was rendered from the stored keys. */
  predicate Traced(start: Shared, sh: Shared)
  {
    && (start.secret.Some? ==> sh.secret == start.secret)
    && (sh.config == start.config || (sh.secret.Some? && RenderedFrom(sh.config, sh.secret.value)))
  }

  lemma StepTraced(x: Crypto, w: World, i: Input, start: Shared)
    requires Agreement(x, BusKeys, w) && Traced(start, w.shared)
    ensures Traced(start, Step(x, BusKeys, w, i).shared)
    ensures forall k :: w.shared.secret == Some(k) && RenderedFrom(w.shared.config, k) ==> RenderedFrom(Step(x, BusKeys, w, i).shared.config, k)
  {
    if i.Call? && i.replica < |w.replicas| {
      assert ReplicaOk(x, BusKeys, w.shared, w.replicas[i.replica]);
    }
  }

  lemma {:induction false} RunTraced(x: Crypto, w: World, inputs: seq<Input>, start: Shared)
    requires Agreement(x, BusKeys, w) && Traced(start, w.shared)
    ensures Traced(start, Run(x, BusKeys, w, inputs).shared)
    ensures forall k :: w.shared.secret == Some(k) && RenderedFrom(w.shared.config, k) ==> RenderedFrom(Run(x, BusKeys, w, inputs).shared.config, k)
    decreases |inputs|
  {
    if inputs != [] {
      StepKeeps(x, BusKeys, w, inputs[0]);
      StepTraced(x, w, inputs[0], start);
      RunTraced(x, Step(x, BusKeys, w, inputs[0]), inputs[1..], start);
    }
  }

  /** What a success promises: a ConfigMap rendered from the very keys it returns, then and later. */
  predicate LeavesRendered(x: Crypto, w: World, before: seq<Input>, later: seq<Input>)
  {
    var mid, end := Run(x, BusKeys, w, before), Run(x, BusKeys, w, before + later);
    forall i :: 0 <= i < |mid.replicas| && mid.replicas[i].Done? ==>
      RenderedFrom(mid.shared.config, mid.replicas[i].keys) && RenderedFrom(end.shared.config, mid.replicas[i].keys)
  }

  lemma NoTwinLeavesRendered(x: Crypto, w: World, before: seq<Input>, later: seq<Input>)
    requires Initial(x, w) && NoTwin(x, w.shared)
    ensures LeavesRendered(x, w, before, later)
  {
    var mid := Run(x, BusKeys, w, before);
    RunKeeps(x, BusKeys, w, before);
    RunTraced(x, w, before, w.shared);
    RunSplit(x, BusKeys, w, before, later);
    RunTraced(x, mid, later, w.shared);
    forall i | 0 <= i < |mid.replicas| && mid.replicas[i].Done?
      ensures RenderedFrom(mid.shared.config, mid.replicas[i].keys) && mid.shared.secret == Some(mid.replicas[i].keys)
    {
      assert ReplicaOk(x, BusKeys, mid.shared, mid.replicas[i]);
    }
  }

  /** A fault-free run of the first replica: read the Secret, create it if there is none, and read the
      ConfigMap. */
  function FirstAlone(sh: Shared, k: Keys): seq<Input>
  {
    var call := Call(0, Fine, k);
    if sh.secret.None? then [call, call, call] else [call, call]
  }

  lemma TwinMisleads(x: Crypto, w: World, k: Keys)
    requires Initial(x, w) && |w.replicas| >= 1
    requires w.shared.config.Some? && w.shared.config.value.conf.Rendered? && k != w.shared.config.value.conf.from
    requires (w.shared.secret.Some? ==> w.shared.secret.value == k) && x.usable(k)
    requires x.pub(k) == x.pub(w.shared.config.value.conf.from)
    ensures !LeavesRendered(x, w, FirstAlone(w.shared, k), [])
  {
    var call := Call(0, Fine, k);
    var inputs := FirstAlone(w.shared, k);
    var stored := w.shared.(secret := Some(k));
    var last: World;
    if w.shared.secret.None? {
      var w1 := World(w.shared, w.replicas[0 := Creating(k)]);
      var w2 := World(stored, w1.replicas[0 := Holding(k)]);
      last := World(stored, w2.replicas[0 := Done(k)]);
      assert Step(x, BusKeys, w, call) == w1 && Step(x, BusKeys, w1, call) == w2 && Step(x, BusKeys, w2, call) == last;
      assert inputs[1..] == [call, call] && inputs[1..][1..] == [call];
      RunOne(x, w2, call);
    } else {
      assert stored == w.shared;
      var w1 := World(w.shared, w.replicas[0 := Holding(k)]);
      last := World(stored, w1.replicas[0 := Done(k)]);
      assert Step(x, BusKeys, w, call) == w1 && Step(x, BusKeys, w1, call) == last;
      assert inputs[1..] == [call];
      RunOne(x, w1, call);
    }
    assert Run(x, BusKeys, w, inputs) == last;
    assert last.replicas[0] == Done(k);
  }

  lemma RunOne(x: Crypto, w: World, i: Input)
    ensures Run(x, BusKeys, w, [i]) == Step(x, BusKeys, w, i)
  {
    assert [i][1..] == [];
  }

  /** Every success in every run leaves a ConfigMap rendered from the very keys it returns, which no
      later step un-renders, if and only if the ConfigMap found at the start has no twin: in particular
      when there is none, when it was rendered from the stored keys, and when public names tell usable
      keys apart. */
  lemma RenderedExactly(x: Crypto, w: World)
    requires Initial(x, w) && |w.replicas| >= 1
    ensures (forall before, later :: LeavesRendered(x, w, before, later)) <==> NoTwin(x, w.shared)
  {
    if NoTwin(x, w.shared) {
      forall before, later ensures LeavesRendered(x, w, before, later) { NoTwinLeavesRendered(x, w, before, later); }
    } else {
      var k :| (w.shared.secret.Some? ==> w.shared.secret.value == k) && x.usable(k)
               && x.pub(k) == x.pub(w.shared.config.value.conf.from) && k != w.shared.config.value.conf.from;
      TwinMisleads(x, w, k);
    }
  }

  // ---------------------------------------------------------------- one replica's code

  predicate Ended(r: Replica) { r.Done? || r.Failed? }

  function Rank(r: Replica): nat
  {
    match r
    case Start => 5
    case Creating(_) => 4
    case Adopting => 3
    case Holding(_) => 2
    case Rendering(_, _) => 1
    case _ => 0
  }

  /** What the other replicas, the API server and the key generator do around this replica's n-th
      call: the shared objects as the call finds them, and the outcome of the call. */
  datatype Surroundings = Surroundings(others: (nat, Shared) -> Shared, fault: nat -> Fault, drawn: Keys)

  /** A whole execution by one replica: machine steps, with the others' changes in between. */
  function Execution(x: Crypto, p: Protocol, s: Surroundings, sh: Shared, r: Replica, n: nat): (Shared, Replica)
    decreases Rank(r)
  {
    if Ended(r) then (sh, r)
    else
      var (sh', r') := Next(x, p, s.others(n, sh), r, s.fault(n), s.drawn);
      Execution(x, p, s, sh', r', n + 1)
  }

  /** The others do only what replicas do: they keep stored keys, and render from them alone. */
  ghost predicate Cooperative(x: Crypto, s: Surroundings)
  {
    forall n: nat, sh: Shared :: Honest(x, sh.config) ==> Honest(x, s.others(n, sh).config) && Allowed(x, sh, s.others(n, sh))
  }

  /** A replica among cooperating others ends as it would in a run of the whole machine. */
  lemma {:induction false} ExecutionKeeps(x: Crypto, p: Protocol, s: Surroundings, sh: Shared, r: Replica, n: nat)
    requires Cooperative(x, s) && Honest(x, sh.config) && ReplicaOk(x, p, sh, r)
    ensures var (end, last) := Execution(x, p, s, sh, r, n); ReplicaOk(x, p, end, last) && Ended(last)
    decreases Rank(r)
  {
    if !Ended(r) {
      var met := s.others(n, sh);
      OthersKeep(x, p, sh, met, r);
      NextKeeps(x, p, met, r, s.fault(n), s.drawn);
      var (sh', r') := Next(x, p, met, r, s.fault(n), s.drawn);
      ExecutionKeeps(x, p, s, sh', r', n + 1);
    }
  }

  lemma AllowedChains(x: Crypto, a: Shared, b: Shared, c: Shared)
    requires Allowed(x, a, b) && Allowed(x, b, c)
    ensures Allowed(x, a, c)
  {
  }

  /** Whole runs of other replicas are cooperative. */
  lemma {:induction false} RunsCooperate(x: Crypto, p: Protocol, w: World, inputs: seq<Input>)
    requires Agreement(x, p, w)
    ensures var end := Run(x, p, w, inputs).shared; Honest(x, end.config) && Allowed(x, w.shared, end)
    decreases |inputs|
  {
    if inputs != [] {
      var next := Step(x, p, w, inputs[0]);
      StepKeeps(x, p, w, inputs[0]);
      RunsCooperate(x, p, next, inputs[1..]);
      AllowedChains(x, w.shared, next.shared, Run(x, p, w, inputs).shared);
    }
  }

  /** What the caller of a successful load may rely on, among cooperating others. */
  ghost predicate Holds(x: Crypto, p: Protocol, sh: Shared, result: Option<Keys>)
  {
    result.Some? ==> sh.secret == result && (p.BusKeys? ==> x.usable(result.value) && RenderedFor(x, sh.config, result.value))
  }

  datatype Reply<+T> = Found(value: T) | NotFound | OtherError

  datatype Written = Created | AlreadyExists | Error

  /** The API server as one replica sees it. */
  class Cluster {
    var shared: Shared
    var calls: nat

    constructor (shared: Shared)
      ensures this.shared == shared && calls == 0
    {
      this.shared, calls := shared, 0;
    }

    method GetSecret(s: Surroundings) returns (r: Reply<Keys>)
      modifies this
      ensures calls == old(calls) + 1 && shared == s.others(old(calls), old(shared))
      ensures r == if s.fault(old(calls)) != Fine then OtherError
                   else if shared.secret.None? then NotFound else Found(shared.secret.value)
    {
      shared := s.others(calls, shared);
      r := if s.fault(calls) != Fine then OtherError
           else if shared.secret.None? then NotFound else Found(shared.secret.value);
      calls := calls + 1;
    }

    method CreateSecret(s: Surroundings, k: Keys) returns (r: Written)
      modifies this
      ensures calls == old(calls) + 1
      ensures var found := s.others(old(calls), old(shared));
              var fault := s.fault(old(calls));
              && shared == (if fault != ErrorBefore && found.secret.None? then found.(secret := Some(k)) else found)
              && r == (if fault != Fine then Error else if found.secret.None? then Created else AlreadyExists)
    {
      shared := s.others(calls, shared);
      var fault := s.fault(calls);
      r := if fault != Fine then Error else if shared.secret.None? then Created else AlreadyExists;
      if fault != ErrorBefore && shared.secret.None? {
        shared := shared.(secret := Some(k));
      }
      calls := calls + 1;
    }

    method GetConfig(s: Surroundings) returns (r: Reply<ConfigMap>)
      modifies this
      ensures calls == old(calls) + 1 && shared == s.others(old(calls), old(shared))
      ensures r == if s.fault(old(calls)) != Fine then OtherError
                   else if shared.config.None? then NotFound else Found(shared.config.value)
    {
      shared := s.others(calls, shared);
      r := if s.fault(calls) != Fine then OtherError
           else if shared.config.None? then NotFound else Found(shared.config.value);
      calls := calls + 1;
    }

    method CreateConfig(s: Surroundings, c: ConfigMap) returns (r: Written)
      modifies this
      ensures calls == old(calls) + 1
      ensures var found := s.others(old(calls), old(shared));
              var fault := s.fault(old(calls));
              && shared == (if fault != ErrorBefore && found.config.None? then found.(config := Some(c)) else found)
              && r == (if fault != Fine then Error else if found.config.None? then Created else AlreadyExists)
    {
      shared := s.others(calls, shared);
      var fault := s.fault(calls);
      r := if fault != Fine then Error else if shared.config.None? then Created else AlreadyExists;
      if fault != ErrorBefore && shared.config.None? {
        shared := shared.(config := Some(c));
      }
      calls := calls + 1;
    }

    /** Refused when the object is gone or has changed since the given version was read. */
    method UpdateConfig(s: Surroundings, version: nat, c: ConfigMap) returns (ok: bool)
      modifies this
      ensures calls == old(calls) + 1
      ensures var found := s.others(old(calls), old(shared));
              var fault := s.fault(old(calls));
              var current := found.config.Some? && found.config.value.version == version;
              && shared == (if fault != ErrorBefore && current then found.(config := Some(c)) else found)
              && ok == (fault == Fine && current)
    {
      shared := s.others(calls, shared);
      var fault := s.fault(calls);
      var current := shared.config.Some? && shared.config.value.version == version;
      ok := fault == Fine && current;
      if fault != ErrorBefore && current {
        shared := shared.(config := Some(c));
      }
      calls := calls + 1;
    }
  }

  method CreateSeeds(x: Crypto, c: Cluster, s: Surroundings) returns (keys: Option<Keys>)
    modifies c
    ensures var end := Execution(x, BusKeys, s, old(c.shared), Creating(s.drawn), old(c.calls));
            match keys
            case None => end == (c.shared, Failed)
            case Some(k) => end == Execution(x, BusKeys, s, c.shared, if x.usable(k) then Holding(k) else Failed, c.calls)
  {
    var created := c.CreateSecret(s, s.drawn);
    match created
    case Created => return Some(s.drawn);
    case Error => return None;
    case AlreadyExists =>
      var got := c.GetSecret(s);
      return if got.Found? then Some(got.value) else None;
  }

  /** One machine step unfolded. */
  lemma Unfold(x: Crypto, p: Protocol, s: Surroundings, sh: Shared, r: Replica, n: nat)
    requires !Ended(r)
    ensures var (sh', r') := Next(x, p, s.others(n, sh), r, s.fault(n), s.drawn);
            Execution(x, p, s, sh, r, n) == Execution(x, p, s, sh', r', n + 1)
  {
  }

  method EnsureServerConfig(x: Crypto, c: Cluster, s: Surroundings, keys: Keys) returns (ok: bool)
    modifies c
    ensures Execution(x, BusKeys, s, old(c.shared), Holding(keys), old(c.calls)) == (c.shared, if ok then Done(keys) else Failed)
  {
    Unfold(x, BusKeys, s, c.shared, Holding(keys), c.calls);
    var got := c.GetConfig(s);
    if got.Found? && UpToDate(x, got.value, keys) { return true; }
    if got.OtherError? { return false; }
    Unfold(x, BusKeys, s, c.shared, Rendering(keys, if got.Found? then Some(got.value.version) else None), c.calls);
    if got.NotFound? {
      var created := c.CreateConfig(s, RenderedConfig(x, keys, 0));
      return created != Error;
    }
    ok := c.UpdateConfig(s, got.value.version, RenderedConfig(x, keys, got.value.version + 1));
  }

  /** The code of one replica runs exactly the machine's steps, whatever happens in between. */
  method LoadOrCreate(x: Crypto, c: Cluster, s: Surroundings) returns (result: Option<Keys>)
    modifies c
    ensures Execution(x, BusKeys, s, old(c.shared), Start, old(c.calls))
         == (c.shared, if result.Some? then Done(result.value) else Failed)
    ensures Cooperative(x, s) && Honest(x, old(c.shared).config) ==> Holds(x, BusKeys, c.shared, result)
  {
    if Cooperative(x, s) && Honest(x, c.shared.config) { ExecutionKeeps(x, BusKeys, s, c.shared, Start, c.calls); }
    var got := c.GetSecret(s);
    var keys: Option<Keys>;
    match got {
      case Found(k) => keys := Some(k);
      case NotFound => keys := CreateSeeds(x, c, s);
      case OtherError => keys := None;
    }
    if keys.None? || !x.usable(keys.value) { return None; }
    var ok := EnsureServerConfig(x, c, s, keys.value);
    return if ok then keys else None;
  }

  /** The workload keys' variant: no ConfigMap, and keys of its own are not parsed again. */
  method LoadOrCreateKeys(x: Crypto, c: Cluster, s: Surroundings) returns (result: Option<Keys>)
    modifies c
    ensures Execution(x, WorkloadKeys, s, old(c.shared), Start, old(c.calls))
         == (c.shared, if result.Some? then Done(result.value) else Failed)
    ensures Cooperative(x, s) && Honest(x, old(c.shared).config) ==> Holds(x, WorkloadKeys, c.shared, result)
  {
    if Cooperative(x, s) && Honest(x, c.shared.config) { ExecutionKeeps(x, WorkloadKeys, s, c.shared, Start, c.calls); }
    Unfold(x, WorkloadKeys, s, c.shared, Start, c.calls);
    var got := c.GetSecret(s);
    if got.NotFound? {
      Unfold(x, WorkloadKeys, s, c.shared, Creating(s.drawn), c.calls);
      var created := c.CreateSecret(s, s.drawn);
      if created == Created { return Some(s.drawn); }
      if created != AlreadyExists { return None; }
      Unfold(x, WorkloadKeys, s, c.shared, Adopting, c.calls);
      got := c.GetSecret(s);
    }
    return if got.Found? && x.usable(got.value) then Some(got.value) else None;
  }

  /** The superuser password's variant: an adopted one is returned even when it is empty. */
  method EnsureAdminPassword(x: Crypto, c: Cluster, s: Surroundings) returns (result: Option<Keys>)
    modifies c
    ensures Execution(x, AdminPassword, s, old(c.shared), Start, old(c.calls))
         == (c.shared, if result.Some? then Done(result.value) else Failed)
    ensures Cooperative(x, s) && Honest(x, old(c.shared).config) ==> Holds(x, AdminPassword, c.shared, result)
  {
    if Cooperative(x, s) && Honest(x, c.shared.config) { ExecutionKeeps(x, AdminPassword, s, c.shared, Start, c.calls); }
    Unfold(x, AdminPassword, s, c.shared, Start, c.calls);
    var got := c.GetSecret(s);
    if got.Found? { return if got.value != [] then Some(got.value) else None; }
    if got.OtherError? { return None; }
    Unfold(x, AdminPassword, s, c.shared, Creating(s.drawn), c.calls);
    var created := c.CreateSecret(s, s.drawn);
    if created == Created { return Some(s.drawn); }
    if created != AlreadyExists { return None; }
    Unfold(x, AdminPassword, s, c.shared, Adopting, c.calls);
    got := c.GetSecret(s);
    return if got.Found? then Some(got.value) else None;
  }

  // ---------------------------------------------------------------- when a replica succeeds

  /** No call fails, and from the given call on nobody else changes anything. */
  ghost predicate Quiet(s: Surroundings, since: nat)
  {
    && (forall n :: s.fault(n) == Fine)
    && forall n, sh :: n >= since ==> s.others(n, sh) == sh
  }

  /** The ConfigMap a replica leaves behind for keys k when nobody interferes: the one it found, if it
      carries the public name of k and is not blank, and one rendered from k otherwise. */
  function Settled(x: Crypto, found: Option<ConfigMap>, k: Keys): ConfigMap
  {
    match found
    case None => ConfigMap(x.pub(k), Rendered(k), 0)
    case Some(c) => if c.annotation == x.pub(k) && c.conf.Rendered? then c else ConfigMap(x.pub(k), Rendered(k), c.version + 1)
  }

  lemma QuietHolding(x: Crypto, s: Surroundings, sh: Shared, k: Keys, n: nat)
    requires Quiet(s, n)
    ensures Execution(x, BusKeys, s, sh, Holding(k), n) == (sh.(config := Some(Settled(x, sh.config, k))), Done(k))
  {
    Unfold(x, BusKeys, s, sh, Holding(k), n);
    var (sh1, r1) := Next(x, BusKeys, sh, Holding(k), Fine, s.drawn);
    if r1.Rendering? {
      Unfold(x, BusKeys, s, sh1, r1, n + 1);
    } else {
      assert sh.(config := Some(Settled(x, sh.config, k))) == sh;
    }
  }

  /** How an execution goes on once the replica has taken keys from the Secret. */
  lemma QuietLoaded(x: Crypto, p: Protocol, s: Surroundings, sh: Shared, k: Keys, adopted: bool, n: nat)
    requires Quiet(s, n)
    ensures var (end, r) := Execution(x, p, s, sh, Loaded(x, p, k, adopted), n);
            && end.secret == sh.secret
            && r == (if (if p.AdminPassword? then adopted || k != [] else x.usable(k)) then Done(k) else Failed)
            && end.config == if p.BusKeys? && x.usable(k) then Some(Settled(x, sh.config, k)) else sh.config
  {
    if p.BusKeys? && x.usable(k) { QuietHolding(x, s, sh, k, n); }
  }

  /** Alone, a replica that finds keys takes them if they are usable (a password, if it is not empty),
      and leaves the Secret as it is; for the event bus the ConfigMap then carries the public name of
      those keys, and is only written if it did not. */
  lemma UndisturbedLoads(x: Crypto, p: Protocol, s: Surroundings, sh: Shared, n: nat)
    requires Quiet(s, n) && sh.secret.Some?
    ensures var (end, r) := Execution(x, p, s, sh, Start, n);
            var k := sh.secret.value;
            && end.secret == Some(k)
            && r == (if (match p case AdminPassword => k != [] case _ => x.usable(k)) then Done(k) else Failed)
            && end.config == if p.BusKeys? && x.usable(k) then Some(Settled(x, sh.config, k)) else sh.config
  {
    Unfold(x, p, s, sh, Start, n);
    QuietLoaded(x, p, s, sh, sh.secret.value, false, n + 1);
  }

  /** Alone and without a Secret, a replica stores the keys it has drawn and takes them; only the event
      bus parses them again. */
  lemma UndisturbedCreates(x: Crypto, p: Protocol, s: Surroundings, sh: Shared, n: nat)
    requires Quiet(s, n) && sh.secret.None?
    ensures var (end, r) := Execution(x, p, s, sh, Start, n);
            && end.secret == Some(s.drawn)
            && r == (if p.BusKeys? && !x.usable(s.drawn) then Failed else Done(s.drawn))
            && end.config == if p.BusKeys? && x.usable(s.drawn) then Some(Settled(x, sh.config, s.drawn)) else sh.config
  {
    Unfold(x, p, s, sh, Start, n);
    Unfold(x, p, s, sh, Creating(s.drawn), n + 1);
    if p.BusKeys? && x.usable(s.drawn) { QuietHolding(x, s, sh.(secret := Some(s.drawn)), s.drawn, n + 2); }
  }

  /** Left alone and without faults, a replica ends with the stored keys, or else with the drawn ones; it
      succeeds unless they are found unusable. */
  lemma UndisturbedSucceeds(x: Crypto, p: Protocol, s: Surroundings, sh: Shared, n: nat)
    requires Quiet(s, n)
    ensures var (end, r) := Execution(x, p, s, sh, Start, n);
            var keys := if sh.secret.Some? then sh.secret.value else s.drawn;
            var accepted := match p
                            case BusKeys => x.usable(keys)
                            case WorkloadKeys => sh.secret.None? || x.usable(keys)
                            case AdminPassword => sh.secret.None? || keys != [];
            end.secret == Some(keys) && r == if accepted then Done(keys) else Failed
  {
    if sh.secret.Some? { UndisturbedLoads(x, p, s, sh, n); } else { UndisturbedCreates(x, p, s, sh, n); }
  }

  /** Another replica stores k between this one's look at the Secret and its attempt to create it. */
  ghost predicate LosesRace(s: Surroundings, sh: Shared, k: Keys, n: nat)
  {
    var looked := s.others(n, sh);
    && Quiet(s, n + 2)
    && looked.secret.None?
    && s.others(n + 1, looked).secret == Some(k)
  }

  /** The loser of the race adopts the winner's keys: its own are dropped, those stored stay, and it
      succeeds with them unless they do not parse; a password it adopts whatever it is. */
  lemma LoserAdopts(x: Crypto, p: Protocol, s: Surroundings, sh: Shared, k: Keys, n: nat)
    requires LosesRace(s, sh, k, n)
    ensures var (end, r) := Execution(x, p, s, sh, Start, n);
            && end.secret == Some(k)
            && r == (if p.AdminPassword? || x.usable(k) then Done(k) else Failed)
            && (p.BusKeys? && x.usable(k) ==> end.config == Some(Settled(x, s.others(n + 1, s.others(n, sh)).config, k)))
  {
    var looked := s.others(n, sh);
    var met := s.others(n + 1, looked);
    Unfold(x, p, s, sh, Start, n);
    Unfold(x, p, s, looked, Creating(s.drawn), n + 1);
    Unfold(x, p, s, met, Adopting, n + 2);
    QuietLoaded(x, p, s, met, k, true, n + 3);
  }

  /** A ConfigMap that another replica creates first is accepted; one that it changes first is a
      failure, and its version stays. */
  lemma RenderRaces(x: Crypto, p: Protocol, sh: Shared, k: Keys, seen: Option<nat>, drawn: Keys)
    requires sh.config.Some?
    ensures seen.None? ==> Next(x, p, sh, Rendering(k, seen), Fine, drawn) == (sh, Done(k))
    ensures seen.Some? && sh.config.value.version != seen.value ==> Next(x, p, sh, Rendering(k, seen), Fine, drawn) == (sh, Failed)
  {
  }

  /** A call that reports an error ends the execution in failure. One that failed without effect has
      changed nothing; one that took effect has done just what it does when all is well. */
  lemma ErrorsFail(x: Crypto, p: Protocol, sh: Shared, r: Replica, drawn: Keys)
    requires !Ended(r)
    ensures Next(x, p, sh, r, ErrorBefore, drawn) == (sh, Failed)
    ensures Next(x, p, sh, r, ErrorAfter, drawn) == (Next(x, p, sh, r, Fine, drawn).0, Failed)
  {
  }
}
