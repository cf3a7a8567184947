/** No gap in coverage: with margins and lifetimes long enough for k failed renewals in a row, every
    instant after the first lease is covered by an unexpired lease (internal/sidecar/renewal.go). */
module Coverage {
  import opened Text
  import opened Renewal

  /** What is assumed of broker and clock: a call lasts at most `call`, at most `failures` renewals
      fail in a row, and every lease has a margin and a lifetime of at least the given ones. */
  datatype Bounds = Bounds(call: nat, failures: nat, margin: int, lifetime: int)

  function Step(cfg: Config, b: Bounds): int { cfg.interval + b.call }

  /** The time k failed renewals and one success can take. */
  function Room(cfg: Config, b: Bounds): int { (b.failures + 1) * Step(cfg, b) }

  /** Lifetimes leave that time, and margins that time less the one unit by which a check can come too
      early. */
  predicate Roomy(cfg: Config, b: Bounds) { b.lifetime >= Room(cfg, b) && b.margin >= Room(cfg, b) - 1 }

  predicate LongEnough(cfg: Config, b: Bounds, l: Lease)
  {
    MarginFor(cfg, l) >= b.margin && l.resp.expiresAt - l.issuedAt >= b.lifetime
  }

  predicate Asks(cfg: Config, l: Lease, t: Turn)
    requires t.Tick?
  {
    Due(cfg, Some(l), t.at)
  }

  predicate Succeeds(cfg: Config, l: Lease, t: Turn)
    requires t.Tick?
  {
    Asks(cfg, l, t) && t.outcome.Issued?
  }

  function NextLease(cfg: Config, l: Lease, t: Turn): Lease
    requires t.Tick?
  {
    if Succeeds(cfg, l, t) then Lease(t.outcome.resp, t.done) else l
  }

  /** When the loop waits for its next tick again. */
  function IdleAfter(cfg: Config, l: Lease, t: Turn): int
    requires t.Tick?
  {
    if Asks(cfg, l, t) then t.done else t.at
  }

  function FailuresAfter(cfg: Config, l: Lease, fails: nat, t: Turn): nat
    requires t.Tick?
  {
    if !Asks(cfg, l, t) then fails else if Succeeds(cfg, l, t) then 0 else fails + 1
  }

  /** A run of the loop within the bounds, from an instant at which it started to wait: a ticker
      delivers its next tick at most one interval later. */
  predicate WithinBounds(cfg: Config, b: Bounds, l: Lease, idle: int, fails: nat, turns: seq<Turn>)
    decreases |turns|
  {
    turns == [] ||
    var t := turns[0];
    && t.Tick?
    && idle <= t.at <= idle + cfg.interval
    && (Asks(cfg, l, t) ==> t.at <= t.done <= t.at + b.call)
    && FailuresAfter(cfg, l, fails, t) <= b.failures
    && (Succeeds(cfg, l, t) ==> LongEnough(cfg, b, NextLease(cfg, l, t)))
    && WithinBounds(cfg, b, NextLease(cfg, l, t), IdleAfter(cfg, l, t), FailuresAfter(cfg, l, fails, t), turns[1..])
  }

  /** The instant the given part of the run has reached. */
  function Reached(cfg: Config, l: Lease, idle: int, turns: seq<Turn>): int
    requires forall i :: 0 <= i < |turns| ==> turns[i].Tick?
    decreases |turns|
  {
    if turns == [] then idle
    else Reached(cfg, NextLease(cfg, l, turns[0]), IdleAfter(cfg, l, turns[0]), turns[1..])
  }

  /** The lease in force at instant t: a renewed one counts from the instant it is obtained. */
  function LeaseAt(cfg: Config, l: Lease, turns: seq<Turn>, t: int): Lease
    requires forall i :: 0 <= i < |turns| ==> turns[i].Tick?
    decreases |turns|
  {
    if turns == [] then l
    else if Succeeds(cfg, l, turns[0]) && t < turns[0].done then l
    else LeaseAt(cfg, NextLease(cfg, l, turns[0]), turns[1..], t)
  }

  lemma {:induction false} AllTicks(cfg: Config, b: Bounds, l: Lease, idle: int, fails: nat, turns: seq<Turn>)
    requires WithinBounds(cfg, b, l, idle, fails, turns)
    ensures forall i :: 0 <= i < |turns| ==> turns[i].Tick?
    decreases |turns|
  {
    if turns != [] {
      AllTicks(cfg, b, NextLease(cfg, l, turns[0]), IdleAfter(cfg, l, turns[0]), FailuresAfter(cfg, l, fails, turns[0]), turns[1..]);
      assert forall i :: 1 <= i < |turns| ==> turns[i] == turns[1..][i - 1];
    }
  }

  /** Renewals happen after the instant the loop started to wait. */
  lemma {:induction false} SameBeforeIdle(cfg: Config, b: Bounds, l: Lease, idle: int, fails: nat, turns: seq<Turn>, t: int)
    requires WithinBounds(cfg, b, l, idle, fails, turns)
    requires forall i :: 0 <= i < |turns| ==> turns[i].Tick?
    requires t < idle
    ensures LeaseAt(cfg, l, turns, t) == l
    decreases |turns|
  {
    if turns != [] && !Succeeds(cfg, l, turns[0]) {
      SameBeforeIdle(cfg, b, l, IdleAfter(cfg, l, turns[0]), FailuresAfter(cfg, l, fails, turns[0]), turns[1..], t);
    }
  }

  /** Enough of the lease is left for all failures still to come, one step each, and the success; and
      once a renewal has failed, the lease stays due. */
  predicate Slack(cfg: Config, b: Bounds, l: Lease, idle: int, fails: nat)
  {
    && fails <= b.failures
    && idle + (b.failures + 1 - fails) * Step(cfg, b) <= l.resp.expiresAt
    && (fails > 0 ==> Due(cfg, Some(l), idle))
  }

  lemma OneStep(b: Bounds, fails: nat, s: int)
    requires fails <= b.failures && s > 0
    ensures (b.failures + 1 - fails) * s == (b.failures - fails) * s + s
    ensures (b.failures - fails) * s >= 0
  {
  }

  lemma SlackKept(cfg: Config, b: Bounds, l: Lease, idle: int, fails: nat, turns: seq<Turn>)
    requires cfg.interval > 0
    requires Roomy(cfg, b)
    requires LongEnough(cfg, b, l) && Slack(cfg, b, l, idle, fails)
    requires turns != [] && WithinBounds(cfg, b, l, idle, fails, turns)
    ensures var t := turns[0];
            && Slack(cfg, b, NextLease(cfg, l, t), IdleAfter(cfg, l, t), FailuresAfter(cfg, l, fails, t))
            && LongEnough(cfg, b, NextLease(cfg, l, t))
            && idle <= IdleAfter(cfg, l, t) <= l.resp.expiresAt
  {
    var t := turns[0];
    OneStep(b, fails, Step(cfg, b));
    if !Asks(cfg, l, t) {
      assert fails == 0;
      OneStep(b, 0, Step(cfg, b));
    }
  }

  lemma {:induction false} CoveredFrom(cfg: Config, b: Bounds, l: Lease, idle: int, fails: nat, turns: seq<Turn>, t: int)
    requires cfg.interval > 0
    requires Roomy(cfg, b)
    requires LongEnough(cfg, b, l) && Slack(cfg, b, l, idle, fails)
    requires WithinBounds(cfg, b, l, idle, fails, turns)
    requires forall i :: 0 <= i < |turns| ==> turns[i].Tick?
    requires idle <= t <= Reached(cfg, l, idle, turns)
    ensures t < LeaseAt(cfg, l, turns, t).resp.expiresAt
    decreases |turns|
  {
    if turns == [] {
      OneStep(b, fails, Step(cfg, b));
    } else {
      SlackKept(cfg, b, l, idle, fails, turns);
      var next, idle', fails' := NextLease(cfg, l, turns[0]), IdleAfter(cfg, l, turns[0]), FailuresAfter(cfg, l, fails, turns[0]);
      if t >= idle' {
        CoveredFrom(cfg, b, next, idle', fails', turns[1..], t);
      } else {
        SameBeforeIdle(cfg, b, next, idle', fails', turns[1..], t);
      }
    }
  }

  /** Every instant from the first lease on, as far as the run goes, is covered by an unexpired lease
      whenever every lease's lifetime is at least (k+1)*(Interval+C) and its margin at least one unit
      less. */
  lemma NoGap(cfg: Config, b: Bounds, first: Lease, turns: seq<Turn>, t: int)
    requires cfg.interval > 0
    requires b.lifetime >= (b.failures + 1) * (cfg.interval + b.call)
    requires b.margin >= (b.failures + 1) * (cfg.interval + b.call) - 1
    requires LongEnough(cfg, b, first)
    requires WithinBounds(cfg, b, first, first.issuedAt, 0, turns)
    requires forall i :: 0 <= i < |turns| ==> turns[i].Tick?
    requires first.issuedAt <= t <= Reached(cfg, first, first.issuedAt, turns)
    ensures t < LeaseAt(cfg, first, turns, t).resp.expiresAt
  {
    CoveredFrom(cfg, b, first, first.issuedAt, 0, turns, t);
  }

  /** In half-lifetime mode the margin follows from the lifetime, truncation included: with the bounds
      of NoGap for room r, a lease is long enough exactly when its lifetime is at least 2*(r-1), or 1
      when r is 1. */
  lemma HalfLifetimeRoom(cfg: Config, b: Bounds, l: Lease)
    requires cfg.halfLifetime && b.margin >= 0 && b.lifetime == b.margin + 1
    ensures LongEnough(cfg, b, l) <==> l.resp.expiresAt - l.issuedAt >= if b.lifetime == 1 then 1 else 2 * (b.lifetime - 1)
  {
  }

  /** At the instant a run has reached, the lease in force is the one Current returns. */
  lemma {:induction false} TracksRenewer(cfg: Config, b: Bounds, st: State, idle: int, fails: nat, turns: seq<Turn>, t: int)
    requires st.current.Some?
    requires WithinBounds(cfg, b, st.current.value, idle, fails, turns)
    requires forall i :: 0 <= i < |turns| ==> turns[i].Tick?
    requires Reached(cfg, st.current.value, idle, turns) <= t
    ensures idle <= Reached(cfg, st.current.value, idle, turns)
    ensures Renewed(cfg, st, turns).0.current == Some(LeaseAt(cfg, st.current.value, turns, t))
    decreases |turns|
  {
    if turns != [] {
      var l := st.current.value;
      TracksRenewer(cfg, b, Checked(cfg, st, turns[0]), IdleAfter(cfg, l, turns[0]), FailuresAfter(cfg, l, fails, turns[0]), turns[1..], t);
    }
  }

  // ---------------------------------------------------------------- both bounds are exact

  /** n failed renewals, each as late and as slow as the bounds allow, and then a success. */
  function LateTurns(cfg: Config, b: Bounds, idle: int, n: nat, renewed: Response): seq<Turn>
    decreases n
  {
    var at := idle + cfg.interval;
    if n == 0 then [Tick(at, Issued(renewed), at + b.call)]
    else [Tick(at, Outage, at + b.call)] + LateTurns(cfg, b, at + b.call, n - 1, renewed)
  }

  /** The first lease is still the one in force when it expires. */
  predicate GapAt(cfg: Config, b: Bounds, l: Lease, idle: int, fails: nat, turns: seq<Turn>)
  {
    && WithinBounds(cfg, b, l, idle, fails, turns)
    && (forall i :: 0 <= i < |turns| ==> turns[i].Tick?)
    && idle <= l.resp.expiresAt <= Reached(cfg, l, idle, turns)
    && LeaseAt(cfg, l, turns, l.resp.expiresAt) == l
  }

  /** What n failed renewals and one success take, step by step. */
  function Span(n: nat, step: int): int { if n == 0 then step else step + Span(n - 1, step) }

  lemma {:induction false} SpanClosedForm(n: nat, step: int)
    ensures Span(n, step) == (n + 1) * step
  {
    if n > 0 { SpanClosedForm(n - 1, step); }
  }

  lemma {:induction false} LateRun(cfg: Config, b: Bounds, l: Lease, idle: int, n: nat, renewed: Response)
    requires cfg.interval > 0
    requires n <= b.failures
    requires idle + cfg.interval + MarginFor(cfg, l) >= l.resp.expiresAt
    requires l.resp.expiresAt < idle + Span(n, Step(cfg, b))
    requires LongEnough(cfg, b, Lease(renewed, idle + Span(n, Step(cfg, b))))
    ensures var turns := LateTurns(cfg, b, idle, n, renewed);
            && WithinBounds(cfg, b, l, idle, b.failures - n, turns)
            && (forall i :: 0 <= i < |turns| ==> turns[i].Tick?)
            && Reached(cfg, l, idle, turns) == idle + Span(n, Step(cfg, b))
            && LeaseAt(cfg, l, turns, l.resp.expiresAt) == l
    decreases n
  {
    if n > 0 {
      var next := idle + Step(cfg, b);
      LateRun(cfg, b, l, next, n - 1, renewed);
      LateFailure(cfg, b, l, idle, b.failures - n, LateTurns(cfg, b, next, n - 1, renewed));
    } else {
      LateSuccess(cfg, b, l, idle, renewed);
    }
  }

  /** One renewal that fails as late as it may, in front of a run. */
  lemma LateFailure(cfg: Config, b: Bounds, l: Lease, idle: int, fails: nat, tail: seq<Turn>)
    requires cfg.interval > 0 && fails < b.failures
    requires idle + cfg.interval + MarginFor(cfg, l) >= l.resp.expiresAt
    requires WithinBounds(cfg, b, l, idle + Step(cfg, b), fails + 1, tail)
    requires forall i :: 0 <= i < |tail| ==> tail[i].Tick?
    ensures var at := idle + cfg.interval;
            var turns := [Tick(at, Outage, at + b.call)] + tail;
            && WithinBounds(cfg, b, l, idle, fails, turns)
            && (forall i :: 0 <= i < |turns| ==> turns[i].Tick?)
            && Reached(cfg, l, idle, turns) == Reached(cfg, l, idle + Step(cfg, b), tail)
            && LeaseAt(cfg, l, turns, l.resp.expiresAt) == LeaseAt(cfg, l, tail, l.resp.expiresAt)
  {
    ConsTail(Tick(idle + cfg.interval, Outage, idle + cfg.interval + b.call), tail);
  }

  lemma LateSuccess(cfg: Config, b: Bounds, l: Lease, idle: int, renewed: Response)
    requires cfg.interval > 0
    requires idle + cfg.interval + MarginFor(cfg, l) >= l.resp.expiresAt
    requires l.resp.expiresAt < idle + Step(cfg, b)
    requires LongEnough(cfg, b, Lease(renewed, idle + Step(cfg, b)))
    ensures var turns := LateTurns(cfg, b, idle, 0, renewed);
            && WithinBounds(cfg, b, l, idle, b.failures, turns)
            && (forall i :: 0 <= i < |turns| ==> turns[i].Tick?)
            && Reached(cfg, l, idle, turns) == idle + Step(cfg, b)
            && LeaseAt(cfg, l, turns, l.resp.expiresAt) == l
  {
    var turns := LateTurns(cfg, b, idle, 0, renewed);
    assert turns[1..] == [];
    assert NextLease(cfg, l, turns[0]) == Lease(renewed, idle + Step(cfg, b));
  }

  lemma RoomIsPositive(interval: int, call: nat, failures: nat)
    requires interval > 0
    ensures (failures + 1) * (interval + call) == failures * (interval + call) + (interval + call)
    ensures failures * (interval + call) >= 0
  {
  }

  /** One unit of lifetime less and the claim fails, however large the margin: for every interval,
      call bound and k there is a run within the bounds with a gap where its first lease expires. */
  lemma LifetimeIsExact(interval: int, call: nat, failures: nat, margin: int)
    returns (cfg: Config, b: Bounds, first: Lease, turns: seq<Turn>)
    requires interval > 0 && margin >= (failures + 1) * (interval + call) - 1
    ensures cfg == Config(margin, interval, false)
    ensures b == Bounds(call, failures, margin, (failures + 1) * (interval + call) - 1)
    ensures LongEnough(cfg, b, first) && GapAt(cfg, b, first, first.issuedAt, 0, turns)
  {
    var room := (failures + 1) * (interval + call);
    RoomIsPositive(interval, call, failures);
    cfg := Config(margin, interval, false);
    b := Bounds(call, failures, margin, room - 1);
    first := Lease(Response([], [], room - 1), 0);
    var renewed := Response([], [], 2 * room);
    turns := LateTurns(cfg, b, 0, failures, renewed);
    SpanClosedForm(failures, interval + call);
    LateRun(cfg, b, first, 0, failures, renewed);
  }

  /** n checks, one unit of time apart, at which the lease is not due, and then the late turns. */
  function PatientTurns(cfg: Config, b: Bounds, idle: int, n: nat, renewed: Response): seq<Turn>
    decreases n
  {
    if n == 0 then LateTurns(cfg, b, idle, b.failures, renewed)
    else [Tick(idle + 1, Outage, idle + 1)] + PatientTurns(cfg, b, idle + 1, n - 1, renewed)
  }

  lemma {:induction false} PatientRun(cfg: Config, b: Bounds, l: Lease, idle: int, n: nat, renewed: Response)
    requires cfg.interval > 0 && MarginFor(cfg, l) >= -1
    requires idle + n + MarginFor(cfg, l) == l.resp.expiresAt - 1
    requires l.resp.expiresAt < idle + n + Room(cfg, b)
    requires LongEnough(cfg, b, Lease(renewed, idle + n + Room(cfg, b)))
    ensures GapAt(cfg, b, l, idle, 0, PatientTurns(cfg, b, idle, n, renewed))
    decreases n
  {
    var turns := PatientTurns(cfg, b, idle, n, renewed);
    if n == 0 {
      SpanClosedForm(b.failures, Step(cfg, b));
      LateRun(cfg, b, l, idle, b.failures, renewed);
    } else {
      PatientRun(cfg, b, l, idle + 1, n - 1, renewed);
      assert turns[1..] == PatientTurns(cfg, b, idle + 1, n - 1, renewed);
    }
  }

  /** One unit of margin less and the claim fails, however long the lifetimes. */
  lemma MarginIsExact(interval: int, call: nat, failures: nat, lifetime: int)
    returns (cfg: Config, b: Bounds, first: Lease, turns: seq<Turn>)
    requires interval > 0
    requires lifetime >= (failures + 1) * (interval + call) - 1
    ensures cfg == Config((failures + 1) * (interval + call) - 2, interval, false)
    ensures b == Bounds(call, failures, cfg.margin, lifetime)
    ensures LongEnough(cfg, b, first) && GapAt(cfg, b, first, first.issuedAt, 0, turns)
  {
    var room := (failures + 1) * (interval + call);
    RoomIsPositive(interval, call, failures);
    cfg := Config(room - 2, interval, false);
    b := Bounds(call, failures, room - 2, lifetime);
    first := Lease(Response([], [], lifetime), 0);
    var n: nat := lifetime - room + 1;
    var renewed := Response([], [], n + room + lifetime);
    turns := PatientTurns(cfg, b, 0, n, renewed);
    PatientRun(cfg, b, first, 0, n, renewed);
  }

  /** In half-lifetime mode one unit of lifetime less than HalfLifetimeRoom asks for is too little:
      every lease may have that lifetime and there is still a run with a gap. */
  lemma HalfLifetimeIsExact(interval: int, call: nat, failures: nat)
    returns (cfg: Config, b: Bounds, first: Lease, turns: seq<Turn>)
    requires interval > 0
    ensures cfg.interval == interval && cfg.halfLifetime && b.call == call && b.failures == failures
    ensures var room := (failures + 1) * (interval + call);
            b.lifetime == (if room == 1 then 1 else 2 * (room - 1)) - 1 && b.margin == HalfTruncated(b.lifetime)
    ensures LongEnough(cfg, b, first) && GapAt(cfg, b, first, first.issuedAt, 0, turns)
  {
    var room := (failures + 1) * (interval + call);
    RoomIsPositive(interval, call, failures);
    var lifetime := (if room == 1 then 1 else 2 * (room - 1)) - 1;
    cfg := Config(0, interval, true);
    b := Bounds(call, failures, HalfTruncated(lifetime), lifetime);
    first := Lease(Response([], [], lifetime), 0);
    if room == 1 {
      turns := [];
    } else {
      var n: nat := room - 2;
      var renewed := Response([], [], n + room + lifetime);
      turns := PatientTurns(cfg, b, 0, n, renewed);
      PatientRun(cfg, b, first, 0, n, renewed);
    }
  }
}
