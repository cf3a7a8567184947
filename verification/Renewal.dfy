/** The lease renewer of internal/sidecar/renewal.go. Time is an integer (nanoseconds), and one clock
    serves all readings. */
module Renewal {
  import opened Text

  const SECOND := 1_000_000_000
  const MAX_BACKOFF := 30 * SECOND

  datatype Response = Response(leaseId: bytes, credential: bytes, expiresAt: int)

  /** The broker's answer to one call. */
  datatype Outcome = Issued(resp: Response) | Refused | Outage

  datatype Lease = Lease(resp: Response, issuedAt: int)

  datatype Config = Config(margin: int, interval: int, halfLifetime: bool)

  /** A call before the first lease: its answer, the clock when it returned, and whether the context
      is cancelled during the wait that follows a failure. */
  datatype Attempt = Attempt(outcome: Outcome, done: int, cancelled: bool)

  /** One turn of the renewal loop: cancellation, or a tick with the clock reading of the check, the
      answer the broker gives if it is asked, and the clock when that answer arrives. */
  datatype Turn = Cancel | Tick(at: int, outcome: Outcome, done: int)

  /** How a run ends: with the refusal or with the context's error during the first acquisition, with
      nil when it is stopped afterwards. Unfinished means that the given history stops before the run
      does. */
  datatype End = Refusal | Cancelled | Stopped | Unfinished

  /** What is observable of a renewer, with the log of all broker answers. */
  datatype State = State(ready: bool, current: Option<Lease>, handed: seq<Response>, calls: seq<Outcome>)

  const FRESH := State(false, None, [], [])

  // ---------------------------------------------------------------- specification

  /** Go's integer division truncates toward zero. */
  function HalfTruncated(d: int): int { if d >= 0 then d / 2 else -((-d) / 2) }

  function MarginFor(cfg: Config, l: Lease): int
  {
    if cfg.halfLifetime then HalfTruncated(l.resp.expiresAt - l.issuedAt) else cfg.margin
  }

  predicate Due(cfg: Config, current: Option<Lease>, now: int)
  {
    current.None? || now + MarginFor(cfg, current.value) >= current.value.resp.expiresAt
  }

  function Answered(st: State, outcome: Outcome, done: int): State
  {
    match outcome
    case Issued(resp) => State(true, Some(Lease(resp, done)), st.handed + [resp], st.calls + [outcome])
    case _ => st.(calls := st.calls + [outcome])
  }

  function Checked(cfg: Config, st: State, t: Turn): State
    requires t.Tick?
  {
    if Due(cfg, st.current, t.at) then Answered(st, t.outcome, t.done) else st
  }

  function Obtained(st: State, attempts: seq<Attempt>): (State, Option<End>)
    decreases |attempts|
  {
    if attempts == [] then (st, Some(Unfinished))
    else
      var a := attempts[0];
      var next := Answered(st, a.outcome, a.done);
      match a.outcome
      case Issued(_) => (next, None)
      case Refused => (next, Some(Refusal))
      case Outage => if a.cancelled then (next, Some(Cancelled)) else Obtained(next, attempts[1..])
  }

  function Renewed(cfg: Config, st: State, turns: seq<Turn>): (State, End)
    decreases |turns|
  {
    if turns == [] then (st, Unfinished)
    else if turns[0].Cancel? then (st, Stopped)
    else Renewed(cfg, Checked(cfg, st, turns[0]), turns[1..])
  }

  function RunOf(cfg: Config, attempts: seq<Attempt>, turns: seq<Turn>): (State, End)
  {
    var (st, end) := Obtained(FRESH, attempts);
    if end.Some? then (st, end.value) else Renewed(cfg, st, turns)
  }

  /** An outage after which the wait is not cancelled: the call is made again. */
  predicate Retried(a: Attempt) { a.outcome.Outage? && !a.cancelled }

  /** How many calls are retried before one ends the acquisition. */
  function Retries(attempts: seq<Attempt>): nat
  {
    if attempts == [] || !Retried(attempts[0]) then 0 else 1 + Retries(attempts[1..])
  }

  /** The n-th wait of the first acquisition: doubling from one second, never above thirty. */
  function Backoff(n: nat): int
  {
    if n == 0 then SECOND else if 2 * Backoff(n - 1) > MAX_BACKOFF then MAX_BACKOFF else 2 * Backoff(n - 1)
  }

  // ---------------------------------------------------------------- the renewer

  class Renewer {
    const cfg: Config
    var ready: bool
    var current: Option<Lease>
    var handed: seq<Response>
    ghost var calls: seq<Outcome>

    ghost function View(): State
      reads this
    {
      State(ready, current, handed, calls)
    }

    constructor (cfg: Config)
      ensures View() == FRESH && this.cfg == cfg
    {
      this.cfg := cfg;
      ready, current, handed, calls := false, None, [], [];
    }

    /** Stores the lease with the local time it was obtained at, and hands it to OnRenew. */
    method Apply(resp: Response, now: int)
      modifies this
      ensures View() == State(true, Some(Lease(resp, now)), old(handed) + [resp], old(calls))
    {
      current := Some(Lease(resp, now));
      ready := true;
      handed := handed + [resp];
    }

    method ObtainFirst(attempts: seq<Attempt>) returns (end: Option<End>, waits: seq<int>)
      modifies this
      ensures (View(), end) == Obtained(old(View()), attempts)
      ensures |waits| == Retries(attempts) && forall i :: 0 <= i < |waits| ==> waits[i] == Backoff(i)
    {
      var backoff := SECOND;
      waits := [];
      for n := 0 to |attempts|
        invariant |waits| == n && backoff == Backoff(n)
        invariant forall i :: 0 <= i < |waits| ==> waits[i] == Backoff(i)
        invariant Obtained(View(), attempts[n..]) == Obtained(old(View()), attempts)
        invariant Retries(attempts) == n + Retries(attempts[n..])
      {
        var a := attempts[n];
        assert attempts[n..][1..] == attempts[n + 1..];
        calls := calls + [a.outcome];
        match a.outcome {
          case Issued(resp) =>
            Apply(resp, a.done);
            return None, waits;
          case Refused =>
            return Some(Refusal), waits;
          case Outage =>
        }
        if a.cancelled { return Some(Cancelled), waits; }
        waits := waits + [backoff];
        backoff := backoff * 2;
        if backoff > MAX_BACKOFF {
          backoff := MAX_BACKOFF;
        }
      }
      return Some(Unfinished), waits;
    }

    method MaybeRenew(t: Turn)
      requires t.Tick?
      modifies this
      ensures View() == Checked(cfg, old(View()), t)
    {
      if current.Some? && t.at + MarginFor(cfg, current.value) < current.value.resp.expiresAt {
        return;
      }
      calls := calls + [t.outcome];
      if t.outcome.Issued? {
        Apply(t.outcome.resp, t.done);
      }
    }

    method Run(attempts: seq<Attempt>, turns: seq<Turn>) returns (end: End)
      requires View() == FRESH
      modifies this
      ensures (View(), end) == RunOf(cfg, attempts, turns)
    {
      var first, _ := ObtainFirst(attempts);
      if first.Some? { return first.value; }
      for n := 0 to |turns|
        invariant Obtained(FRESH, attempts).1.None?
        invariant Renewed(cfg, View(), turns[n..]) == RunOf(cfg, attempts, turns)
      {
        assert turns[n..][1..] == turns[n + 1..];
        if turns[n].Cancel? { return Stopped; }
        MaybeRenew(turns[n]);
      }
      return Unfinished;
    }
  }

  // ---------------------------------------------------------------- every run

  function Successes(calls: seq<Outcome>): seq<Response>
  {
    if calls == [] then []
    else
      var n := |calls| - 1;
      Successes(calls[..n]) + (if calls[n].Issued? then [calls[n].resp] else [])
  }

  /** OnRenew has seen exactly the successes, in order; the current lease is the latest of them; and
      the renewer is ready exactly when there is one. */
  predicate Faithful(st: State)
  {
    && st.handed == Successes(st.calls)
    && (st.ready <==> st.handed != [])
    && (st.current.Some? <==> st.handed != [])
    && (st.handed != [] ==> st.current.value.resp == st.handed[|st.handed| - 1])
  }

  lemma AnsweredFaithful(st: State, outcome: Outcome, done: int)
    requires Faithful(st)
    ensures Faithful(Answered(st, outcome, done))
  {
    assert (st.calls + [outcome])[..|st.calls|] == st.calls;
  }

  /** A later state of the same run: nothing observed is taken back. */
  predicate Continues(a: State, b: State)
  {
    && (a.ready ==> b.ready)
    && a.handed <= b.handed
    && a.calls <= b.calls
  }

  lemma {:induction false} RenewedRuns(cfg: Config, st: State, turns: seq<Turn>)
    requires Faithful(st)
    ensures var (last, end) := Renewed(cfg, st, turns);
            Faithful(last) && Continues(st, last) && end != Refusal && end != Cancelled
    decreases |turns|
  {
    if turns != [] && turns[0].Tick? {
      AnsweredFaithful(st, turns[0].outcome, turns[0].done);
      RenewedRuns(cfg, Checked(cfg, st, turns[0]), turns[1..]);
    }
  }

  predicate NoneIssued(calls: seq<Outcome>) { forall i :: 0 <= i < |calls| ==> !calls[i].Issued? }

  lemma {:induction false} NoSuccess(calls: seq<Outcome>)
    ensures NoneIssued(calls) <==> Successes(calls) == []
  {
    if calls != [] {
      var n := |calls| - 1;
      NoSuccess(calls[..n]);
      assert forall i :: 0 <= i < n ==> calls[..n][i] == calls[i];
    }
  }

  lemma {:induction false} ObtainedRuns(st: State, attempts: seq<Attempt>)
    requires Faithful(st) && NoneIssued(st.calls)
    ensures var (last, end) := Obtained(st, attempts);
            && Faithful(last)
            && (end.None? <==> last.ready) && end != Some(Stopped)
            && (end == Some(Refusal) <==> NoneIssued(last.calls) && |last.calls| > |st.calls| && last.calls[|last.calls| - 1] == Refused)
    decreases |attempts|
  {
    if attempts != [] {
      var a := attempts[0];
      var next := Answered(st, a.outcome, a.done);
      AnsweredFaithful(st, a.outcome, a.done);
      NoSuccess(st.calls);
      NoSuccess(next.calls);
      if a.outcome.Outage? && !a.cancelled {
        ObtainedRuns(next, attempts[1..]);
        var (last, end) := Obtained(st, attempts);
        ObtainedGrows(next, attempts[1..]);
      }
    } else {
      NoSuccess(st.calls);
    }
  }

  lemma {:induction false} ObtainedGrows(st: State, attempts: seq<Attempt>)
    ensures Continues(st, Obtained(st, attempts).0)
    decreases |attempts|
  {
    if attempts != [] && attempts[0].outcome.Outage? && !attempts[0].cancelled {
      ObtainedGrows(Answered(st, attempts[0].outcome, attempts[0].done), attempts[1..]);
    }
  }

  /** For every history of broker answers and cancellations: the observable state is faithful to the
      answers; a run is ended by a refusal exactly when the last answer is a refusal and no success
      came before it; a cancelled run returns the context's error only before the first lease, and
      nil only after it. */
  lemma RunsAreFaithful(cfg: Config, attempts: seq<Attempt>, turns: seq<Turn>)
    ensures var (last, end) := RunOf(cfg, attempts, turns);
            && Faithful(last)
            && (end == Refusal <==> last.calls != [] && NoneIssued(last.calls) && last.calls[|last.calls| - 1] == Refused)
            && (end == Cancelled ==> !last.ready) && (end == Stopped ==> last.ready)
  {
    ObtainedRuns(FRESH, attempts);
    var (st, end) := Obtained(FRESH, attempts);
    if end.None? {
      RenewedRuns(cfg, st, turns);
      NoSuccess(st.calls);
      var last := Renewed(cfg, st, turns).0;
      NoSuccess(last.calls);
    }
  }

  lemma {:induction false} RenewedSplit(cfg: Config, st: State, a: seq<Turn>, b: seq<Turn>)
    requires forall t <- a :: t.Tick?
    ensures Renewed(cfg, st, a + b) == Renewed(cfg, Renewed(cfg, st, a).0, b)
    decreases |a|
  {
    if a == [] {
      assert a + b == b;
    } else {
      assert a[0] in a && (a + b)[1..] == a[1..] + b;
      RenewedSplit(cfg, Checked(cfg, st, a[0]), a[1..], b);
    }
  }

  /** Ready never goes back, and what OnRenew has seen only grows, as a run goes on. */
  lemma ReadyNeverReverts(cfg: Config, attempts: seq<Attempt>, a: seq<Turn>, b: seq<Turn>)
    requires forall t <- a :: t.Tick?
    ensures Continues(RunOf(cfg, attempts, a).0, RunOf(cfg, attempts, a + b).0)
  {
    ObtainedRuns(FRESH, attempts);
    var (st, end) := Obtained(FRESH, attempts);
    if end.None? {
      RenewedRuns(cfg, st, a);
      RenewedSplit(cfg, st, a, b);
      RenewedRuns(cfg, Renewed(cfg, st, a).0, b);
    }
  }

  // ---------------------------------------------------------------- how a run ends

  function Outcomes(attempts: seq<Attempt>): seq<Outcome>
  {
    if attempts == [] then [] else [attempts[0].outcome] + Outcomes(attempts[1..])
  }

  lemma OutcomesNext(calls: seq<Outcome>, attempts: seq<Attempt>, k: nat)
    requires k < |attempts|
    ensures calls + Outcomes(attempts[..k + 1]) == calls + [attempts[0].outcome] + Outcomes(attempts[1..][..k])
  {
    assert attempts[..k + 1][1..] == attempts[1..][..k];
    Assoc(calls, [attempts[0].outcome], Outcomes(attempts[1..][..k]));
  }

  /** After any number of retries, the k-th call ends the acquisition: a lease makes the renewer ready and
      is handed over with the time its answer arrived, a refusal is returned as such, and an outage only
      ends it if the wait after it is cancelled. Every call up to it was made. */
  lemma {:induction false} ObtainedAt(st: State, attempts: seq<Attempt>, k: nat)
    requires k < |attempts| && (forall i :: 0 <= i < k ==> Retried(attempts[i])) && !Retried(attempts[k])
    ensures Retries(attempts) == k
    ensures var calls := st.calls + Outcomes(attempts[..k + 1]);
            Obtained(st, attempts) ==
            match attempts[k].outcome
            case Issued(resp) => (State(true, Some(Lease(resp, attempts[k].done)), st.handed + [resp], calls), None)
            case Refused => (State(st.ready, st.current, st.handed, calls), Some(Refusal))
            case Outage => (State(st.ready, st.current, st.handed, calls), Some(Cancelled))
    decreases k
  {
    OutcomesNext(st.calls, attempts, k);
    if k > 0 {
      assert forall i :: 0 <= i < k - 1 ==> attempts[1..][i] == attempts[i + 1];
      assert Retried(attempts[0]);
      ObtainedAt(Answered(st, Outage, attempts[0].done), attempts[1..], k - 1);
    } else {
      assert Outcomes(attempts[1..][..0]) == [] && st.calls + [attempts[0].outcome] + [] == st.calls + [attempts[0].outcome];
    }
  }

  /** As long as every call is retried there is no lease and no end. */
  lemma {:induction false} ObtainedNever(st: State, attempts: seq<Attempt>)
    requires forall i :: 0 <= i < |attempts| ==> Retried(attempts[i])
    ensures Obtained(st, attempts) == (st.(calls := st.calls + Outcomes(attempts)), Some(Unfinished))
    ensures Retries(attempts) == |attempts|
    decreases |attempts|
  {
    if attempts == [] {
      assert st.calls + Outcomes(attempts) == st.calls;
    } else {
      assert Retried(attempts[0]);
      Assoc(st.calls, [attempts[0].outcome], Outcomes(attempts[1..]));
      ObtainedNever(Answered(st, Outage, attempts[0].done), attempts[1..]);
    }
  }

  lemma {:induction false} RetriesExactly(attempts: seq<Attempt>)
    ensures var k := Retries(attempts);
            && k <= |attempts| && (forall i :: 0 <= i < k ==> Retried(attempts[i]))
            && (k < |attempts| ==> !Retried(attempts[k]))
  {
    if attempts != [] && Retried(attempts[0]) {
      RetriesExactly(attempts[1..]);
      assert forall i :: 0 < i < |attempts| ==> attempts[i] == attempts[1..][i - 1];
    }
  }

  /** The k-th call is made, and is the last one before a lease, a refusal or a cancellation. */
  predicate EndsWith(attempts: seq<Attempt>, k: nat, outcome: Outcome)
  {
    k < |attempts| && attempts[k].outcome == outcome && !Retried(attempts[k]) && forall i :: 0 <= i < k ==> Retried(attempts[i])
  }

  /** Exactly how every run ends: with the refusal if that is the first answer that is not a retried
      outage; with the context's error only if it is cancelled in the wait after an outage; and once there
      is a lease, with nil at the first cancellation and not before. */
  lemma RunEndsExactly(cfg: Config, attempts: seq<Attempt>, turns: seq<Turn>)
    ensures var end := RunOf(cfg, attempts, turns).1;
            && (end == Refusal <==> exists k :: EndsWith(attempts, k, Refused))
            && (end == Cancelled <==> exists k :: EndsWith(attempts, k, Outage))
            && (end == Stopped <==> (exists k, resp :: EndsWith(attempts, k, Issued(resp))) && Cancel in turns)
  {
    var k := Retries(attempts);
    RetriesExactly(attempts);
    if k < |attempts| {
      ObtainedAt(FRESH, attempts, k);
      assert EndsWith(attempts, k, attempts[k].outcome);
      assert forall j, o :: EndsWith(attempts, j, o) ==> j == k;
      if attempts[k].outcome.Issued? { StopsAtCancel(cfg, Obtained(FRESH, attempts).0, turns); }
    } else {
      ObtainedNever(FRESH, attempts);
    }
  }

  lemma {:induction false} StopsAtCancel(cfg: Config, st: State, turns: seq<Turn>)
    ensures Renewed(cfg, st, turns).1 == if Cancel in turns then Stopped else Unfinished
    decreases |turns|
  {
    if turns != [] {
      assert turns == [turns[0]] + turns[1..];
      if turns[0].Tick? { StopsAtCancel(cfg, Checked(cfg, st, turns[0]), turns[1..]); }
    }
  }

  /** Renewals go on until the first cancellation: the ticks before it are all handled, none after it. */
  lemma GoesOnUntilCancelled(cfg: Config, attempts: seq<Attempt>, ticks: seq<Turn>, later: seq<Turn>)
    requires forall t <- ticks :: t.Tick?
    requires RunOf(cfg, attempts, []).0.ready
    ensures RunOf(cfg, attempts, ticks + [Cancel] + later) == (RunOf(cfg, attempts, ticks).0, Stopped)
    ensures RunOf(cfg, attempts, ticks).1 == Unfinished
  {
    ObtainedRuns(FRESH, attempts);
    var st := Obtained(FRESH, attempts).0;
    assert ticks + [Cancel] + later == ticks + ([Cancel] + later);
    RenewedSplit(cfg, st, ticks, [Cancel] + later);
    StopsAtCancel(cfg, st, ticks);
  }

  /** One more tick: the broker is asked exactly when the lease's remaining time is at most the margin (or
      half its lifetime at issue); a new lease replaces the old one and is handed over, and any other
      answer leaves everything as it was. */
  lemma OneMoreTick(cfg: Config, attempts: seq<Attempt>, ticks: seq<Turn>, t: Turn)
    requires (forall u <- ticks :: u.Tick?) && t.Tick?
    requires RunOf(cfg, attempts, []).0.ready
    ensures RunOf(cfg, attempts, ticks).0.current.Some?
    ensures var st, last := RunOf(cfg, attempts, ticks).0, RunOf(cfg, attempts, ticks + [t]).0;
            var expires, issued := st.current.value.resp.expiresAt, st.current.value.issuedAt;
            var half := if expires >= issued then (expires - issued) / 2 else -((issued - expires) / 2);
            var margin := if cfg.halfLifetime then half else cfg.margin;
            last == if expires - t.at > margin then st
                    else if t.outcome.Issued? then
                      State(true, Some(Lease(t.outcome.resp, t.done)), st.handed + [t.outcome.resp], st.calls + [t.outcome])
                    else State(st.ready, st.current, st.handed, st.calls + [t.outcome])
  {
    ObtainedRuns(FRESH, attempts);
    var first := Obtained(FRESH, attempts).0;
    RenewedSplit(cfg, first, ticks, [t]);
    RenewedRuns(cfg, first, ticks);
    RenewedOne(cfg, Renewed(cfg, first, ticks).0, t);
  }

  lemma RenewedOne(cfg: Config, st: State, t: Turn)
    requires t.Tick?
    ensures Renewed(cfg, st, [t]).0 == Checked(cfg, st, t)
  {
    assert [t][1..] == [];
  }

  /** The waits between first attempts, in closed form: 1, 2, 4, 8, 16 and then 30 seconds. */
  lemma {:induction false} BackoffClosedForm(n: nat)
    ensures Backoff(n) == 1_000_000_000 * if n == 0 then 1 else if n == 1 then 2 else if n == 2 then 4
                                          else if n == 3 then 8 else if n == 4 then 16 else 30
  {
    if n > 0 { BackoffClosedForm(n - 1); }
  }
}
