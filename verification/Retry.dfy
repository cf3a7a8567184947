/** The startup retry of internal/dbwait/retry.go. Time is in milliseconds, from the first attempt. */
module Retry {
  import opened Text

  const DEFAULT_MAX_ELAPSED := 60_000
  const INITIAL_BACKOFF := 500
  const MAX_BACKOFF := 8_000

  /** The n-th attempt (counted from 1): whether it succeeds and how long it takes, and how long the
      wait after it lasts, or that the context is cancelled in that wait. */
  datatype Wait = Slept(ms: nat) | ContextDone

  datatype World = World(succeeds: nat -> bool, takes: nat -> nat, wait: nat -> Wait)

  datatype End = Success | GaveUp | Cancelled

  datatype Outcome = Outcome(end: End, attempts: nat, elapsed: int, waited: int)

  /** The wait asked for after the n-th attempt. */
  function Backoff(n: nat): nat
    requires n >= 1
  {
    if n == 1 then INITIAL_BACKOFF
    else if 2 * Backoff(n - 1) > MAX_BACKOFF then MAX_BACKOFF else 2 * Backoff(n - 1)
  }

  /** A timer never fires early. */
  ghost predicate TimersHold(w: World)
  {
    forall n :: n >= 1 ==> w.wait(n).Slept? ==> w.wait(n).ms >= Backoff(n)
  }

  lemma {:induction false} BackoffRange(n: nat)
    requires n >= 1
    ensures INITIAL_BACKOFF <= Backoff(n) <= MAX_BACKOFF
  {
    if n > 1 { BackoffRange(n - 1); }
  }

  /** What is left to do before attempt n, at `now`, having waited `waited` in all. */
  ghost function From(w: World, maxElapsed: int, n: nat, now: int, waited: int): Outcome
    requires TimersHold(w) && n >= 1
    decreases if maxElapsed > now then maxElapsed - now else 0
  {
    var after := now + w.takes(n);
    if w.succeeds(n) then Outcome(Success, n, after, waited)
    else if after >= maxElapsed then Outcome(GaveUp, n, after, waited)
    else
      match w.wait(n)
      case ContextDone => Outcome(Cancelled, n, after, waited)
      case Slept(ms) =>
        BackoffRange(n);
        From(w, maxElapsed, n + 1, after + ms, waited + ms)
  }

  /** Terminates with the measure deadline minus now. */
  method Retry(maxElapsed: int, w: World) returns (end: End, attempts: nat, ghost elapsed: int, ghost waited: int)
    requires TimersHold(w)
    ensures end == From(w, maxElapsed, 1, 0, 0).end && attempts == From(w, maxElapsed, 1, 0, 0).attempts
    ensures elapsed == From(w, maxElapsed, 1, 0, 0).elapsed && waited == From(w, maxElapsed, 1, 0, 0).waited
  {
    var now := 0;
    var deadline := now + maxElapsed;
    var backoff := INITIAL_BACKOFF;
    attempts, waited := 1, 0;
    while true
      invariant attempts >= 1 && backoff == Backoff(attempts)
      invariant From(w, maxElapsed, attempts, now, waited) == From(w, maxElapsed, 1, 0, 0)
      decreases if deadline > now then deadline - now else 0
    {
      BackoffRange(attempts);
      now := now + w.takes(attempts);
      if w.succeeds(attempts) { return Success, attempts, now, waited; }
      if !(now < deadline) { return GaveUp, attempts, now, waited; }
      var wait := w.wait(attempts);
      if wait.ContextDone? { return Cancelled, attempts, now, waited; }
      now := now + wait.ms;
      waited := waited + wait.ms;
      backoff := backoff * 2;
      if backoff > MAX_BACKOFF {
        backoff := MAX_BACKOFF;
      }
      attempts := attempts + 1;
    }
  }

  // ---------------------------------------------------------------- bounds

  /** The sum of the first n waits asked for. */
  function BackoffSum(n: nat): nat { if n == 0 then 0 else BackoffSum(n - 1) + Backoff(n) }

  /** The same in closed form. */
  function LeastWait(n: nat): int
  {
    if n <= 4 then 500 * (Pow2(n) - 1) else 7_500 + 8_000 * (n - 4)
  }

  lemma {:induction false} BackoffClosedForm(n: nat)
    requires n >= 1
    ensures Backoff(n) == if n <= 5 then 500 * Pow2(n - 1) else MAX_BACKOFF
  {
    if n > 1 { BackoffClosedForm(n - 1); }
    assert Pow2(4) == 16 by { assert Pow2(2) == 4; }
  }

  lemma {:induction false} BackoffSumClosedForm(n: nat)
    ensures BackoffSum(n) == LeastWait(n)
  {
    if n > 0 {
      BackoffSumClosedForm(n - 1);
      BackoffClosedForm(n);
    }
    assert Pow2(4) == 16 by { assert Pow2(2) == 4; }
  }

  lemma {:induction false} BackoffSumGrows(a: nat, b: nat)
    requires a <= b
    ensures BackoffSum(a) <= BackoffSum(b)
  {
    if a < b { BackoffSumGrows(a, b - 1); }
  }

  lemma SumStep(n: nat)
    requires n >= 1
    ensures BackoffSum(n) == BackoffSum(n - 1) + Backoff(n)
  {
  }

  /** A failed attempt and the wait after it. */
  predicate GoesOn(w: World, maxElapsed: int, n: nat, now: int)
  {
    !w.succeeds(n) && now + w.takes(n) < maxElapsed && w.wait(n).Slept?
  }

  lemma FromStep(w: World, maxElapsed: int, n: nat, now: int, waited: int)
    requires TimersHold(w) && n >= 1 && GoesOn(w, maxElapsed, n, now)
    ensures From(w, maxElapsed, n, now, waited)
         == From(w, maxElapsed, n + 1, now + w.takes(n) + w.wait(n).ms, waited + w.wait(n).ms)
  {
    BackoffRange(n);
  }

  /** How a run ends, from any point of it. */
  lemma {:induction false} FromEnds(w: World, maxElapsed: int, n: nat, now: int, waited: int)
    requires TimersHold(w) && n >= 1
    ensures var o := From(w, maxElapsed, n, now, waited);
            && o.attempts >= n
            && (o.end.GaveUp? ==> o.elapsed >= maxElapsed)
            && (o.end.Success? <==> w.succeeds(o.attempts))
            && (forall i :: n <= i < o.attempts ==> !w.succeeds(i))
            && (o.end.Cancelled? ==> w.wait(o.attempts).ContextDone?)
            && (o.attempts == n ==> o.elapsed == now + w.takes(n))
            && (o.attempts > n ==> w.wait(o.attempts - 1).Slept?
                                   && o.elapsed < maxElapsed + w.wait(o.attempts - 1).ms + w.takes(o.attempts))
    decreases if maxElapsed > now then maxElapsed - now else 0
  {
    var after := now + w.takes(n);
    if !w.succeeds(n) && after < maxElapsed && w.wait(n).Slept? {
      BackoffRange(n);
      FromEnds(w, maxElapsed, n + 1, after + w.wait(n).ms, waited + w.wait(n).ms);
    }
  }

  /** How long a run waits. */
  lemma {:induction false} FromWaits(w: World, maxElapsed: int, n: nat, now: int, waited: int)
    requires TimersHold(w) && n >= 1
    requires BackoffSum(n - 1) <= waited <= now
    ensures var o := From(w, maxElapsed, n, now, waited);
            o.attempts >= n && BackoffSum(o.attempts - 1) <= o.waited <= o.elapsed
    decreases if maxElapsed > now then maxElapsed - now else 0
  {
    if GoesOn(w, maxElapsed, n, now) {
      BackoffRange(n);
      FromStep(w, maxElapsed, n, now, waited);
      SumStep(n);
      FromWaits(w, maxElapsed, n + 1, now + w.takes(n) + w.wait(n).ms, waited + w.wait(n).ms);
    }
  }

  /** It only goes on while the deadline has not passed. */
  lemma {:induction false} FromGoesOn(w: World, maxElapsed: int, n: nat, now: int, waited: int)
    requires TimersHold(w) && n >= 1
    requires BackoffSum(n - 1) <= now
    ensures var o := From(w, maxElapsed, n, now, waited);
            o.attempts >= n && (o.attempts > n ==> BackoffSum(o.attempts - 2) < maxElapsed)
    decreases if maxElapsed > now then maxElapsed - now else 0
  {
    if GoesOn(w, maxElapsed, n, now) {
      BackoffRange(n);
      FromStep(w, maxElapsed, n, now, waited);
      SumStep(n);
      FromGoesOn(w, maxElapsed, n + 1, now + w.takes(n) + w.wait(n).ms, waited + w.wait(n).ms);
    }
  }

  /** Every run: the total wait after n sleeps is at least the closed form, the attempts stop at the
      first success, giving up happens only at or after maxElapsed, and no run makes more attempts
      than the closed form allows. */
  lemma RetryBounds(w: World, maxElapsed: int, n: nat)
    requires TimersHold(w)
    requires LeastWait(n) >= maxElapsed
    ensures var o := From(w, maxElapsed, 1, 0, 0);
            && 1 <= o.attempts <= n + 1
            && o.waited >= LeastWait(o.attempts - 1)
            && (o.end.GaveUp? ==> o.elapsed >= maxElapsed)
            && (o.end.Success? <==> w.succeeds(o.attempts))
            && (forall i :: 1 <= i < o.attempts ==> !w.succeeds(i))
  {
    FromEnds(w, maxElapsed, 1, 0, 0);
    FromWaitsInAll(w, maxElapsed, n);
  }

  lemma FromWaitsInAll(w: World, maxElapsed: int, n: nat)
    requires TimersHold(w)
    requires LeastWait(n) >= maxElapsed
    ensures var o := From(w, maxElapsed, 1, 0, 0);
            1 <= o.attempts <= n + 1 && o.waited >= LeastWait(o.attempts - 1)
  {
    var o := From(w, maxElapsed, 1, 0, 0);
    BackoffSumClosedForm(0);
    FromWaits(w, maxElapsed, 1, 0, 0);
    FromGoesOn(w, maxElapsed, 1, 0, 0);
    BackoffSumClosedForm(o.attempts - 1);
    if o.attempts >= 2 { LateAttempt(o.attempts - 2, maxElapsed, n); }
  }

  /** Waits that have not used up the deadline are fewer than those that do. */
  lemma LateAttempt(m: nat, maxElapsed: int, n: nat)
    requires BackoffSum(m) < maxElapsed <= LeastWait(n)
    ensures m < n
  {
    BackoffSumClosedForm(n);
    if n <= m { BackoffSumGrows(n, m); }
  }

  /** The default of a minute makes at most twelve attempts. */
  lemma DefaultAttempts(w: World)
    requires TimersHold(w)
    ensures From(w, DEFAULT_MAX_ELAPSED, 1, 0, 0).attempts <= 12
  {
    RetryBounds(w, DEFAULT_MAX_ELAPSED, 11);
  }

  /** With exact sleeps, giving up comes at most eight seconds and one call late. */
  lemma ExactSleeps(w: World, maxElapsed: int, call: nat)
    requires forall n :: n >= 1 ==> w.takes(n) <= call
    requires forall n :: n >= 1 ==> w.wait(n).Slept? ==> w.wait(n).ms == Backoff(n)
    requires maxElapsed >= 0
    ensures From(w, maxElapsed, 1, 0, 0).elapsed <= maxElapsed + MAX_BACKOFF + call
  {
    FromEnds(w, maxElapsed, 1, 0, 0);
    var o := From(w, maxElapsed, 1, 0, 0);
    if o.attempts >= 2 { BackoffRange(o.attempts - 1); }
  }

  /** Calls that fail at once, with exact sleeps. */
  function Refusing(): World
  {
    World(_ => false, _ => 0, n => Slept(if n >= 1 then Backoff(n) else 0))
  }

  lemma RefusingHolds()
    ensures TimersHold(Refusing())
  {
  }

  /** One failed call and one exact sleep of a refusing server. */
  lemma RefusingStep(maxElapsed: int, n: nat)
    requires TimersHold(Refusing()) && n >= 1 && BackoffSum(n - 1) < maxElapsed
    ensures From(Refusing(), maxElapsed, n, BackoffSum(n - 1), BackoffSum(n - 1))
         == From(Refusing(), maxElapsed, n + 1, BackoffSum(n), BackoffSum(n))
  {
    SumStep(n);
    FromStep(Refusing(), maxElapsed, n, BackoffSum(n - 1), BackoffSum(n - 1));
  }

  lemma RefusingEnds(maxElapsed: int, n: nat, now: int)
    requires TimersHold(Refusing()) && n >= 1 && now >= maxElapsed
    ensures From(Refusing(), maxElapsed, n, now, now) == Outcome(GaveUp, n, now, now)
  {
  }

  lemma {:induction false} RefusingFrom(maxElapsed: int, n: nat, last: nat)
    requires TimersHold(Refusing())
    requires 1 <= n <= last
    requires BackoffSum(last - 1) >= maxElapsed
    requires last >= 2 ==> BackoffSum(last - 2) < maxElapsed
    ensures From(Refusing(), maxElapsed, n, BackoffSum(n - 1), BackoffSum(n - 1))
         == Outcome(GaveUp, last, BackoffSum(last - 1), BackoffSum(last - 1))
    decreases last - n
  {
    if n == last {
      RefusingEnds(maxElapsed, n, BackoffSum(n - 1));
    } else {
      BackoffSumGrows(n - 1, last - 2);
      RefusingStep(maxElapsed, n);
      RefusingFrom(maxElapsed, n + 1, last);
    }
  }

  /** The bound on attempts is exact for every deadline: calls that fail at once, with exact sleeps,
      give up at attempt n + 1 for the least n whose least total wait reaches maxElapsed. */
  lemma BoundReached(maxElapsed: int, n: nat)
    requires LeastWait(n) >= maxElapsed
    requires n >= 1 ==> LeastWait(n - 1) < maxElapsed
    ensures TimersHold(Refusing())
    ensures From(Refusing(), maxElapsed, 1, 0, 0) == Outcome(GaveUp, n + 1, LeastWait(n), LeastWait(n))
  {
    RefusingHolds();
    BackoffSumClosedForm(n);
    if n >= 1 { BackoffSumClosedForm(n - 1); }
    RefusingFrom(maxElapsed, 1, n + 1);
  }

  /** The default deadline is met with the twelfth attempt, after 63.5 seconds. */
  lemma TwelveReached()
    ensures TimersHold(Refusing())
    ensures From(Refusing(), DEFAULT_MAX_ELAPSED, 1, 0, 0) == Outcome(GaveUp, 12, 63_500, 63_500)
  {
    BoundReached(DEFAULT_MAX_ELAPSED, 11);
  }
}
