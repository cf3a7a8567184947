/** The database provisioner of internal/dbprov/provision.go and the server steps of Admin.Ensure in
    internal/dbprov/admin.go, for one database, its role and its Secret, with a single provisioner.
    One step is one call to PostgreSQL or Kubernetes together with the local work that follows it. */
module PasswordAgreement {
  import opened Text

  /** Five minutes, in nanoseconds. */
  const RECHECK_INTERVAL := 300_000_000_000

  /** The credential Secret; an absent key reads as the empty string. */
  datatype Credentials = Credentials(password: bytes, dsn: bytes, database: bytes)

  /** The role with its password; the database, and whether every role may connect to it, as PostgreSQL
      lets them to a new one; the Secret; and the clock. */
  datatype Shared = Shared(role: Option<bytes>, database: bool, public: bool, secret: Option<Credentials>, now: int)

  /** The database's name and how its DSN is built from a password. */
  datatype Setup = Setup(name: bytes, dsn: bytes -> bytes)

  /** Where the provisioner is, with the password it works with and the Secret it has read. */
  datatype Phase =
    | Idle
    | Reading
    | Checking(pw: bytes, seen: Option<Credentials>)
    | SettingRole(pw: bytes, seen: Option<Credentials>)
    | MakingDatabase(pw: bytes, seen: Option<Credentials>)
    | Restricting(pw: bytes, seen: Option<Credentials>)
    | Publishing(pw: bytes)
    | Writing(pw: bytes, existed: bool)
    | Succeeded(pw: bytes)
    | Failed
    | RemoveReading
    | Removing
    | Removed

  /** A call succeeds, fails without effect, or takes effect and still reports an error. */
  datatype Fault = Fine | ErrorBefore | ErrorAfter

  function PasswordIn(c: Option<Credentials>): bytes { if c.Some? then c.value.password else [] }

  predicate RecentlyVerified(verified: Option<int>, now: int)
  {
    verified.Some? && now - verified.value < RECHECK_INTERVAL
  }

  /** Nothing is written when the Secret that was read already says everything. */
  function AfterServer(x: Setup, pw: bytes, seen: Option<Credentials>): Phase
  {
    if seen.Some? && seen.value.dsn == x.dsn(pw) && seen.value.database == x.name then Succeeded(pw) else Publishing(pw)
  }

  /** An existing database stays as it is. */
  function WithDatabase(sh: Shared): Shared { if sh.database then sh else sh.(database := true, public := true) }

  function Next(x: Setup, sh: Shared, verified: Option<int>, ph: Phase, fault: Fault, drawn: bytes): (Shared, Option<int>, Phase)
  {
    match ph
    case Reading =>
      if fault != Fine then (sh, verified, Failed)
      else
        var pw := PasswordIn(sh.secret);
        if pw == [] then (sh, verified, SettingRole(drawn, sh.secret))
        else if RecentlyVerified(verified, sh.now) then (sh, verified, AfterServer(x, pw, sh.secret))
        else (sh, verified, Checking(pw, sh.secret))
    case Checking(pw, seen) =>
      if fault != Fine then (sh, verified, Failed)
      else if sh.role.Some? && sh.database then (sh, Some(sh.now), AfterServer(x, pw, seen))
      else (sh, verified, SettingRole(pw, seen))
    case SettingRole(pw, seen) =>
      if fault == ErrorBefore then (sh, verified, Failed)
      else (sh.(role := Some(pw)), verified, if fault == Fine then MakingDatabase(pw, seen) else Failed)
    case MakingDatabase(pw, seen) =>
      if fault == ErrorBefore then (sh, verified, Failed)
      else if !sh.database && sh.role.None? then (sh, verified, Failed)
      else (WithDatabase(sh), verified, if fault == Fine then Restricting(pw, seen) else Failed)
    case Restricting(pw, seen) =>
      if fault == ErrorBefore || !sh.database then (sh, verified, Failed)
      else if fault == ErrorAfter then (sh.(public := false), verified, Failed)
      else (sh.(public := false), Some(sh.now), AfterServer(x, pw, seen))
    case Publishing(pw) =>
      if fault != Fine then (sh, verified, Failed) else (sh, verified, Writing(pw, sh.secret.Some?))
    case Writing(pw, existed) =>
      if fault == ErrorBefore || existed != sh.secret.Some? then (sh, verified, Failed)
      else (sh.(secret := Some(Credentials(pw, x.dsn(pw), x.name))), verified, if fault == Fine then Succeeded(pw) else Failed)
    case RemoveReading =>
      if fault != Fine then (sh, verified, Failed)
      else (sh, verified, if sh.secret.None? || sh.secret.value.database == [] then Removed else Removing)
    case Removing =>
      if fault == ErrorBefore then (sh, verified, Failed)
      else (sh.(secret := None), verified, if fault == Fine then Removed else Failed)
    case _ => (sh, verified, ph)
  }

  // ---------------------------------------------------------------- runs

  /** What can happen around the provisioner: a server that lost its role or database, a deleted
      Secret, and time. */
  datatype Event = RoleLost | DatabaseLost | SecretDeleted | Passed(duration: nat)

  function Happen(sh: Shared, e: Event): Shared
  {
    match e
    case RoleLost => sh.(role := None)
    case DatabaseLost => sh.(database := false)
    case SecretDeleted => sh.(secret := None)
    case Passed(d) => sh.(now := sh.now + d)
  }

  /** `undisturbed` says that no loss has happened since the current ensure began, and `contacted`
      that it has decided to ask the server. */
  datatype World = World(shared: Shared, verified: Option<int>, phase: Phase, undisturbed: bool, contacted: bool)

  datatype Input =
    | BeginEnsure
    | BeginRemove
    | Call(fault: Fault, drawn: bytes)
    | Crash
    | Environment(event: Event)

  predicate AtRest(ph: Phase) { ph.Idle? || ph.Succeeded? || ph.Failed? || ph.Removed? }

  predicate Contacts(ph: Phase) { ph.Checking? || ph.SettingRole? }

  function Step(x: Setup, w: World, i: Input): World
  {
    match i
    case BeginEnsure => if AtRest(w.phase) then w.(phase := Reading, undisturbed := true, contacted := false) else w
    case BeginRemove => if AtRest(w.phase) then w.(phase := RemoveReading) else w
    case Call(fault, drawn) =>
      var (sh, verified, ph) := Next(x, w.shared, w.verified, w.phase, fault, drawn);
      World(sh, verified, ph, w.undisturbed, w.contacted || Contacts(ph))
    case Crash => w.(verified := None, phase := Idle)
    case Environment(e) => w.(shared := Happen(w.shared, e), undisturbed := w.undisturbed && e.Passed?)
  }

  function Run(x: Setup, w: World, inputs: seq<Input>): World
    decreases |inputs|
  {
    if inputs == [] then w else Run(x, Step(x, w, inputs[0]), inputs[1..])
  }

  /** The published password is the role's password whenever both exist. */
  predicate Agree(sh: Shared)
  {
    PasswordIn(sh.secret) != [] && sh.role.Some? ==> sh.role.value == PasswordIn(sh.secret)
  }

  predicate SecretMatches(sh: Shared, pw: bytes) { PasswordIn(sh.secret) != [] ==> PasswordIn(sh.secret) == pw }

  predicate RoleMatches(sh: Shared, pw: bytes) { sh.role.Some? ==> sh.role.value == pw }

  predicate PhaseAgrees(sh: Shared, ph: Phase)
  {
    match ph
    case SettingRole(pw, _) => SecretMatches(sh, pw)
    case Checking(pw, _) => SecretMatches(sh, pw) && RoleMatches(sh, pw)
    case MakingDatabase(pw, _) => SecretMatches(sh, pw) && RoleMatches(sh, pw)
    case Restricting(pw, _) => SecretMatches(sh, pw) && RoleMatches(sh, pw)
    case Publishing(pw) => SecretMatches(sh, pw) && RoleMatches(sh, pw)
    case Writing(pw, _) => SecretMatches(sh, pw) && RoleMatches(sh, pw)
    case _ => true
  }

  lemma NextAgrees(x: Setup, sh: Shared, verified: Option<int>, ph: Phase, fault: Fault, drawn: bytes)
    requires Agree(sh) && PhaseAgrees(sh, ph)
    ensures var (sh', _, ph') := Next(x, sh, verified, ph, fault, drawn); Agree(sh') && PhaseAgrees(sh', ph')
  {
  }

  lemma StepAgrees(x: Setup, w: World, i: Input)
    requires Agree(w.shared) && PhaseAgrees(w.shared, w.phase)
    ensures Agree(Step(x, w, i).shared) && PhaseAgrees(Step(x, w, i).shared, Step(x, w, i).phase)
  {
    if i.Call? { NextAgrees(x, w.shared, w.verified, w.phase, i.fault, i.drawn); }
  }

  /** Safety over every run, with failures and losses anywhere: from an agreeing start with the
      provisioner at rest, the published password and the role's agree whenever both exist. */
  lemma {:induction false} PasswordsAgree(x: Setup, w: World, inputs: seq<Input>)
    requires Agree(w.shared) && PhaseAgrees(w.shared, w.phase)
    ensures Agree(Run(x, w, inputs).shared)
    ensures PhaseAgrees(Run(x, w, inputs).shared, Run(x, w, inputs).phase)
    decreases |inputs|
  {
    if inputs != [] {
      StepAgrees(x, w, inputs[0]);
      PasswordsAgree(x, Step(x, w, inputs[0]), inputs[1..]);
    }
  }

  lemma StepDrops(x: Setup, w: World, i: Input)
    ensures w.shared.database && i != Environment(DatabaseLost) ==> Step(x, w, i).shared.database
    ensures w.shared.role.Some? && i != Environment(RoleLost) ==> Step(x, w, i).shared.role.Some?
  {
  }

  /** No step of the provisioner drops the database or the role: only the losses of the environment
      do. */
  lemma {:induction false} NothingDropped(x: Setup, w: World, inputs: seq<Input>)
    ensures w.shared.database && Environment(DatabaseLost) !in inputs ==> Run(x, w, inputs).shared.database
    ensures w.shared.role.Some? && Environment(RoleLost) !in inputs ==> Run(x, w, inputs).shared.role.Some?
    decreases |inputs|
  {
    if inputs != [] {
      HeadTail(inputs);
      StepDrops(x, w, inputs[0]);
      NothingDropped(x, Step(x, w, inputs[0]), inputs[1..]);
    }
  }

  // ---------------------------------------------------------------- what success means

  /** Role, database and Secret are all there and agree on pw. */
  predicate Complete(x: Setup, sh: Shared, pw: bytes)
  {
    && sh.role == Some(pw) && sh.database
    && sh.secret == Some(Credentials(pw, x.dsn(pw), x.name))
  }

  /** A drawn password is not empty and occurs in no DSN that already exists. */
  predicate NewPassword(x: Setup, sh: Shared, drawn: bytes)
  {
    drawn != [] && (sh.secret.Some? ==> sh.secret.value.dsn != x.dsn(drawn))
  }

  predicate AllNew(x: Setup, w: World, inputs: seq<Input>)
    decreases |inputs|
  {
    inputs == [] ||
    ((w.phase.Reading? && inputs[0].Call? ==> NewPassword(x, w.shared, inputs[0].drawn)) && AllNew(x, Step(x, w, inputs[0]), inputs[1..]))
  }

  /** What was read is still there, and its password, if any, is the one in use. */
  predicate SeenHolds(x: Setup, sh: Shared, pw: bytes, seen: Option<Credentials>)
  {
    && pw != [] && sh.secret == seen
    && (PasswordIn(seen) == pw || (PasswordIn(seen) == [] && (seen.Some? ==> seen.value.dsn != x.dsn(pw))))
  }

  predicate PhaseHolds(x: Setup, w: World)
  {
    w.undisturbed ==>
    match w.phase
    case Reading => !w.contacted
    case Checking(pw, seen) => w.contacted && SeenHolds(x, w.shared, pw, seen)
    case SettingRole(pw, seen) => w.contacted && SeenHolds(x, w.shared, pw, seen)
    case MakingDatabase(pw, seen) => w.contacted && SeenHolds(x, w.shared, pw, seen) && w.shared.role == Some(pw)
    case Restricting(pw, seen) => w.contacted && SeenHolds(x, w.shared, pw, seen) && w.shared.role == Some(pw) && w.shared.database
    case Publishing(pw) => w.contacted ==> w.shared.role == Some(pw) && w.shared.database
    case Writing(pw, _) => w.contacted ==> w.shared.role == Some(pw) && w.shared.database
    case Succeeded(pw) => w.contacted ==> Complete(x, w.shared, pw)
    case _ => true
  }

  lemma CallHolds(x: Setup, w: World, fault: Fault, drawn: bytes)
    requires Agree(w.shared) && PhaseAgrees(w.shared, w.phase) && PhaseHolds(x, w)
    requires w.phase.Reading? ==> NewPassword(x, w.shared, drawn)
    ensures PhaseHolds(x, Step(x, w, Call(fault, drawn)))
  {
  }

  lemma StepHolds(x: Setup, w: World, i: Input)
    requires Agree(w.shared) && PhaseAgrees(w.shared, w.phase) && PhaseHolds(x, w)
    requires w.phase.Reading? && i.Call? ==> NewPassword(x, w.shared, i.drawn)
    ensures PhaseHolds(x, Step(x, w, i))
  {
    if i.Call? { CallHolds(x, w, i.fault, i.drawn); }
  }

  /** An ensure that asked the server (because there was no usable Secret, or the last verification
      was a recheck interval ago) and succeeded, with no loss since it began, leaves role, database
      and Secret all present and in agreement. */
  lemma {:induction false} SuccessIsComplete(x: Setup, w: World, inputs: seq<Input>)
    requires Agree(w.shared) && PhaseAgrees(w.shared, w.phase) && PhaseHolds(x, w) && AllNew(x, w, inputs)
    ensures PhaseHolds(x, Run(x, w, inputs))
    ensures var end := Run(x, w, inputs);
            end.phase.Succeeded? && end.undisturbed && end.contacted ==> Complete(x, end.shared, end.phase.pw)
    decreases |inputs|
  {
    if inputs != [] {
      StepHolds(x, w, inputs[0]);
      StepAgrees(x, w, inputs[0]);
      SuccessIsComplete(x, Step(x, w, inputs[0]), inputs[1..]);
    }
  }

  // ---------------------------------------------------------------- the provisioner's code

  /** What surrounds the n-th call: the events since the call before it, its outcome, and the
      password the generator would draw. */
  datatype Surroundings = Surroundings(events: nat -> seq<Event>, fault: nat -> Fault, drawn: bytes)

  function HappenAll(sh: Shared, events: seq<Event>): Shared
    decreases |events|
  {
    if events == [] then sh else HappenAll(Happen(sh, events[0]), events[1..])
  }

  function Rank(ph: Phase): nat
  {
    match ph
    case Reading => 7
    case Checking(_, _) => 6
    case SettingRole(_, _) => 5
    case MakingDatabase(_, _) => 4
    case Restricting(_, _) => 3
    case Publishing(_) => 2
    case Writing(_, _) => 1
    case RemoveReading => 2
    case Removing => 1
    case _ => 0
  }

  /** A whole call of the provisioner: machine steps, with the events in between. */
  function Execution(x: Setup, s: Surroundings, sh: Shared, verified: Option<int>, ph: Phase, n: nat): (Shared, Option<int>, Phase)
    decreases Rank(ph)
  {
    if AtRest(ph) then (sh, verified, ph)
    else
      var (sh', verified', ph') := Next(x, HappenAll(sh, s.events(n)), verified, ph, s.fault(n), s.drawn);
      Execution(x, s, sh', verified', ph', n + 1)
  }

  lemma Unfold(x: Setup, s: Surroundings, sh: Shared, verified: Option<int>, ph: Phase, n: nat)
    requires !AtRest(ph)
    ensures var (sh', verified', ph') := Next(x, HappenAll(sh, s.events(n)), verified, ph, s.fault(n), s.drawn);
            Execution(x, s, sh, verified, ph, n) == Execution(x, s, sh', verified', ph', n + 1)
  {
  }

  function Environments(events: seq<Event>): seq<Input>
  {
    if events == [] then [] else [Environment(events[0])] + Environments(events[1..])
  }

  lemma {:induction false} RunSplit(x: Setup, w: World, a: seq<Input>, b: seq<Input>)
    ensures Run(x, w, a + b) == Run(x, Run(x, w, a), b)
    decreases |a|
  {
    if a == [] {
      assert a + b == b;
    } else {
      assert (a + b)[1..] == a[1..] + b;
      RunSplit(x, Step(x, w, a[0]), a[1..], b);
    }
  }

  lemma {:induction false} EnvironmentsRun(x: Setup, w: World, events: seq<Event>)
    ensures var end := Run(x, w, Environments(events));
            && end.shared == HappenAll(w.shared, events) && end.verified == w.verified
            && end.phase == w.phase && end.contacted == w.contacted
            && end.undisturbed == (w.undisturbed && forall e <- events :: e.Passed?)
    decreases |events|
  {
    if events != [] {
      var rest := Environments(events[1..]);
      assert Environments(events)[1..] == rest;
      EnvironmentsRun(x, Step(x, w, Environment(events[0])), events[1..]);
      assert events == [events[0]] + events[1..];
    }
  }

  /** The steps of the run that an execution is. */
  function Trace(x: Setup, s: Surroundings, w: World, n: nat): seq<Input>
    decreases Rank(w.phase)
  {
    if AtRest(w.phase) then []
    else
      EnvironmentsRun(x, w, s.events(n));
      var called := Step(x, Run(x, w, Environments(s.events(n))), Call(s.fault(n), s.drawn));
      Environments(s.events(n)) + ([Call(s.fault(n), s.drawn)] + Trace(x, s, called, n + 1))
  }

  /** An execution is a run of the machine, so whatever holds of every run holds of it. */
  lemma {:induction false} ExecutionIsRun(x: Setup, s: Surroundings, w: World, n: nat)
    ensures var end := Run(x, w, Trace(x, s, w, n));
            && Execution(x, s, w.shared, w.verified, w.phase, n) == (end.shared, end.verified, end.phase)
            && AtRest(end.phase)
    decreases Rank(w.phase)
  {
    if !AtRest(w.phase) {
      EnvironmentsRun(x, w, s.events(n));
      var call := Call(s.fault(n), s.drawn);
      var quiet := Run(x, w, Environments(s.events(n)));
      var called := Step(x, quiet, call);
      var rest := Trace(x, s, called, n + 1);
      ExecutionIsRun(x, s, called, n + 1);
      Unfold(x, s, w.shared, w.verified, w.phase, n);
      RunSplit(x, w, Environments(s.events(n)), [call] + rest);
      assert ([call] + rest)[1..] == rest;
      assert Run(x, quiet, [call] + rest) == Run(x, called, rest);
    }
  }

  /** Whatever fails and whatever is lost while one ensure or removal runs, agreement is kept. */
  lemma ExecutionAgrees(x: Setup, s: Surroundings, sh: Shared, verified: Option<int>, ph: Phase, n: nat)
    requires Agree(sh) && (ph.Reading? || ph.RemoveReading?)
    ensures Agree(Execution(x, s, sh, verified, ph, n).0)
  {
    var w := World(sh, verified, ph, false, false);
    ExecutionIsRun(x, s, w, n);
    PasswordsAgree(x, w, Trace(x, s, w, n));
  }

  lemma {:induction false} QuietPassing(sh: Shared, events: seq<Event>)
    requires forall e <- events :: e.Passed?
    ensures HappenAll(sh, events).now >= sh.now
    ensures HappenAll(sh, events) == sh.(now := HappenAll(sh, events).now)
    decreases |events|
  {
    if events == [] {
      assert sh == sh.(now := sh.now);
    } else {
      assert events[0] in events;
      QuietPassing(Happen(sh, events[0]), events[1..]);
    }
  }

  /** An ensure that begins without a usable Secret or after the recheck window, with no loss while
      it runs, leaves role, database and Secret all present and in agreement whenever it succeeds. */
  lemma EnsureCompletes(x: Setup, s: Surroundings, sh: Shared, verified: Option<int>, n: nat)
    requires Agree(sh) && NewPassword(x, sh, s.drawn)
    requires Lossless(s)
    requires AsksServer(sh.secret, verified, sh.now)
    ensures var (end, _, ph) := Execution(x, s, sh, verified, Reading, n);
            ph.Failed? || (ph.Succeeded? && Complete(x, end, ph.pw))
  {
    QuietPassing(sh, s.events(n));
    var w := World(HappenAll(sh, s.events(n)), verified, Reading, true, false);
    var called := Step(x, w, Call(s.fault(n), s.drawn));
    CallHolds(x, w, s.fault(n), s.drawn);
    StepAgrees(x, w, Call(s.fault(n), s.drawn));
    Unfold(x, s, sh, verified, Reading, n);
    ContactedCompletes(x, s, called, n + 1);
  }

  /** Nothing is lost while the ensure runs. */
  ghost predicate Lossless(s: Surroundings) { forall k: nat, e :: e in s.events(k) ==> e.Passed? }

  ghost predicate FailsOrCompletes(x: Setup, s: Surroundings, sh: Shared, verified: Option<int>)
  {
    var (end, _, ph) := Execution(x, s, sh, verified, Reading, 0);
    ph.Failed? || (ph.Succeeded? && Complete(x, end, ph.pw))
  }

  /** The guard of the server check, on what an ensure can see: no usable Secret, or the last
      verification is a recheck interval ago. */
  predicate AsksServer(secret: Option<Credentials>, verified: Option<int>, now: int)
  {
    PasswordIn(secret) == [] || verified.None? || now - verified.value >= 300_000_000_000
  }

  /** For every Secret, memory and clock: an ensure without losses fails or leaves everything in place,
      whatever (agreeing) role and database it finds, if and only if it asks the server. */
  lemma CompletesExactly(x: Setup, secret: Option<Credentials>, verified: Option<int>, now: int, drawn: bytes)
    requires NewPassword(x, Shared(None, false, false, secret, now), drawn)
    ensures (forall s: Surroundings, sh: Shared ::
               sh.secret == secret && sh.now == now && Lossless(s) && NewPassword(x, sh, s.drawn) && Agree(sh)
               ==> FailsOrCompletes(x, s, sh, verified))
            <==> AsksServer(secret, verified, now)
  {
    if AsksServer(secret, verified, now) {
      forall s: Surroundings, sh: Shared |
        sh.secret == secret && sh.now == now && Lossless(s) && NewPassword(x, sh, s.drawn) && Agree(sh)
        ensures FailsOrCompletes(x, s, sh, verified)
      {
        EnsureCompletes(x, s, sh, verified, 0);
      }
    } else {
      var s := WindowHidesLoss(x, Shared(None, false, false, secret, now), verified, drawn);
      assert !FailsOrCompletes(x, s, Shared(None, false, false, secret, now), verified);
    }
  }

  /** Within the window, whatever the Secret and however old the verification, an ensure without any
      fault succeeds although role and database are gone. */
  lemma WindowHidesLoss(x: Setup, sh: Shared, verified: Option<int>, drawn: bytes) returns (s: Surroundings)
    requires !AsksServer(sh.secret, verified, sh.now) && sh.role.None?
    ensures Lossless(s) && s.drawn == drawn
    ensures var (end, _, ph) := Execution(x, s, sh, verified, Reading, 0);
            ph == Succeeded(PasswordIn(sh.secret)) && end.role.None? && end.database == sh.database && !Complete(x, end, ph.pw)
  {
    s := Surroundings(_ => [], _ => Fine, drawn);
    var pw := PasswordIn(sh.secret);
    Unfold(x, s, sh, verified, Reading, 0);
    if AfterServer(x, pw, sh.secret) == Publishing(pw) {
      Unfold(x, s, sh, verified, Publishing(pw), 1);
      Unfold(x, s, sh, verified, Writing(pw, true), 2);
    }
  }

  /** No call fails. */
  ghost predicate Faultless(s: Surroundings) { forall k: nat :: s.fault(k) == Fine }

  /** What the next step of an ensure needs to go through. */
  predicate CanGoOn(sh: Shared, ph: Phase)
  {
    match ph
    case MakingDatabase(_, _) => sh.role.Some?
    case Restricting(_, _) => sh.database
    case Writing(_, existed) => existed == sh.secret.Some?
    case Reading => true
    case Checking(_, _) => true
    case SettingRole(_, _) => true
    case Publishing(_) => true
    case Succeeded(_) => true
    case _ => false
  }

  lemma {:induction false} GoesThrough(x: Setup, s: Surroundings, sh: Shared, verified: Option<int>, ph: Phase, n: nat)
    requires Lossless(s) && Faultless(s) && CanGoOn(sh, ph)
    ensures Execution(x, s, sh, verified, ph, n).2.Succeeded?
    decreases Rank(ph)
  {
    if !AtRest(ph) {
      QuietPassing(sh, s.events(n));
      var (sh', verified', ph') := Next(x, HappenAll(sh, s.events(n)), verified, ph, Fine, s.drawn);
      GoesThrough(x, s, sh', verified', ph', n + 1);
    }
  }

  /** The provisioner heals: without faults and losses an ensure always succeeds, whatever it finds; and
      when it asks the server it leaves role, database and Secret present and in agreement. */
  lemma EnsureHeals(x: Setup, s: Surroundings, sh: Shared, verified: Option<int>, n: nat)
    requires Lossless(s) && Faultless(s)
    ensures var (end, _, ph) := Execution(x, s, sh, verified, Reading, n);
            && ph.Succeeded?
            && (Agree(sh) && NewPassword(x, sh, s.drawn) && AsksServer(sh.secret, verified, sh.now) ==> Complete(x, end, ph.pw))
  {
    GoesThrough(x, s, sh, verified, Reading, n);
    if Agree(sh) && NewPassword(x, sh, s.drawn) && AsksServer(sh.secret, verified, sh.now) {
      EnsureCompletes(x, s, sh, verified, n);
    }
  }

  lemma {:induction false} ContactedCompletes(x: Setup, s: Surroundings, w: World, n: nat)
    requires Agree(w.shared) && PhaseAgrees(w.shared, w.phase) && PhaseHolds(x, w)
    requires w.undisturbed && !w.phase.Reading? && !w.phase.Idle? && !w.phase.RemoveReading? && !w.phase.Removing? && !w.phase.Removed?
    requires w.phase.Failed? || w.contacted
    requires Lossless(s)
    ensures var (end, _, ph) := Execution(x, s, w.shared, w.verified, w.phase, n);
            ph.Failed? || (ph.Succeeded? && Complete(x, end, ph.pw))
    decreases Rank(w.phase)
  {
    if !AtRest(w.phase) {
      QuietPassing(w.shared, s.events(n));
      var quiet := w.(shared := HappenAll(w.shared, s.events(n)));
      var called := Step(x, quiet, Call(s.fault(n), s.drawn));
      CallHolds(x, quiet, s.fault(n), s.drawn);
      StepAgrees(x, quiet, Call(s.fault(n), s.drawn));
      Unfold(x, s, w.shared, w.verified, w.phase, n);
      ContactedCompletes(x, s, called, n + 1);
    }
  }

  // ---------------------------------------------------------------- what one ensure changes

  /** A call that reports an error ends the execution in failure. One that failed without effect has
      changed nothing; one that took effect leaves what it leaves when all is well. */
  lemma ErrorsFail(x: Setup, sh: Shared, verified: Option<int>, ph: Phase, drawn: bytes)
    requires !AtRest(ph)
    ensures Next(x, sh, verified, ph, ErrorBefore, drawn) == (sh, verified, Failed)
    ensures Next(x, sh, verified, ph, ErrorAfter, drawn) == (Next(x, sh, verified, ph, Fine, drawn).0, verified, Failed)
  {
  }

  /** The password in use while an ensure runs: the published one, or the one drawn for want of it. */
  predicate Uses(ph: Phase, pw: bytes)
  {
    match ph
    case Checking(p, _) => p == pw
    case SettingRole(p, _) => p == pw
    case MakingDatabase(p, _) => p == pw
    case Restricting(p, _) => p == pw
    case Publishing(p) => p == pw
    case Writing(p, _) => p == pw
    case Succeeded(p) => p == pw
    case Failed => true
    case _ => false
  }

  lemma {:induction false} UsesKept(x: Setup, s: Surroundings, sh: Shared, verified: Option<int>, ph: Phase, n: nat, pw: bytes)
    requires Uses(ph, pw)
    ensures Uses(Execution(x, s, sh, verified, ph, n).2, pw)
    decreases Rank(ph)
  {
    if !AtRest(ph) {
      var (sh', verified', ph') := Next(x, HappenAll(sh, s.events(n)), verified, ph, s.fault(n), s.drawn);
      UsesKept(x, s, sh', verified', ph', n + 1, pw);
    }
  }

  /** A published password is honoured; only for want of one is the drawn one used. */
  lemma PasswordHonoured(x: Setup, s: Surroundings, sh: Shared, verified: Option<int>, n: nat)
    requires Lossless(s)
    ensures var ph := Execution(x, s, sh, verified, Reading, n).2;
            ph.Succeeded? ==> ph.pw == if sh.secret.Some? && sh.secret.value.password != [] then sh.secret.value.password else s.drawn
  {
    QuietPassing(sh, s.events(n));
    Unfold(x, s, sh, verified, Reading, n);
    var (sh', verified', ph') := Next(x, HappenAll(sh, s.events(n)), verified, Reading, s.fault(n), s.drawn);
    UsesKept(x, s, sh', verified', ph', n + 1, if PasswordIn(sh.secret) != [] then PasswordIn(sh.secret) else s.drawn);
  }

  /** The last look at the server was at a moment of this ensure. */
  predicate Remembered(verified: Option<int>, since: int, now: int)
  {
    verified.Some? && since <= verified.value <= now
  }

  lemma {:induction false} PublishedRuns(x: Setup, s: Surroundings, sh: Shared, verified: Option<int>, ph: Phase, n: nat)
    requires Lossless(s) && (ph.Publishing? || ph.Writing? || ph.Succeeded? || ph.Failed?)
    ensures var (end, v, last) := Execution(x, s, sh, verified, ph, n);
            v == verified && end.now >= sh.now && end == sh.(now := end.now, secret := end.secret)
    decreases Rank(ph)
  {
    if !AtRest(ph) {
      QuietPassing(sh, s.events(n));
      var (sh', verified', ph') := Next(x, HappenAll(sh, s.events(n)), verified, ph, s.fault(n), s.drawn);
      PublishedRuns(x, s, sh', verified', ph', n + 1);
    }
  }

  lemma {:induction false} ServerRuns(x: Setup, s: Surroundings, sh: Shared, verified: Option<int>, ph: Phase, n: nat)
    requires Lossless(s) && (ph.SettingRole? || ph.MakingDatabase? || ph.Restricting?)
    ensures var (end, v, last) := Execution(x, s, sh, verified, ph, n);
            last.Succeeded? ==> !end.public && Remembered(v, sh.now, end.now)
    decreases Rank(ph)
  {
    QuietPassing(sh, s.events(n));
    var (sh', verified', ph') := Next(x, HappenAll(sh, s.events(n)), verified, ph, s.fault(n), s.drawn);
    if ph'.MakingDatabase? || ph'.Restricting? {
      ServerRuns(x, s, sh', verified', ph', n + 1);
    } else {
      PublishedRuns(x, s, sh', verified', ph', n + 1);
    }
  }

  /** An ensure that asks the server and succeeds remembers when it did, and leaves a database that is
      closed to other roles, unless it found role and database in place under a published password: then
      the database stays as it is. One that does not ask leaves memory and database as they are. */
  lemma ClosedExactly(x: Setup, s: Surroundings, sh: Shared, verified: Option<int>, n: nat)
    requires Lossless(s)
    requires Execution(x, s, sh, verified, Reading, n).2.Succeeded?
    ensures var (end, v, _) := Execution(x, s, sh, verified, Reading, n);
            && (AsksServer(sh.secret, verified, HappenAll(sh, s.events(n)).now) ==>
                  && Remembered(v, sh.now, end.now)
                  && (end.public <==> PasswordIn(sh.secret) != [] && sh.role.Some? && sh.database && sh.public))
            && (!AsksServer(sh.secret, verified, HappenAll(sh, s.events(n)).now) ==>
                  v == verified && end.role == sh.role && end.database == sh.database && end.public == sh.public)
  {
    QuietPassing(sh, s.events(n));
    Unfold(x, s, sh, verified, Reading, n);
    var (sh1, v1, ph1) := Next(x, HappenAll(sh, s.events(n)), verified, Reading, s.fault(n), s.drawn);
    if ph1.SettingRole? {
      ServerRuns(x, s, sh1, v1, ph1, n + 1);
    } else if ph1.Checking? {
      QuietPassing(sh1, s.events(n + 1));
      Unfold(x, s, sh1, v1, ph1, n + 1);
      var (sh2, v2, ph2) := Next(x, HappenAll(sh1, s.events(n + 1)), v1, ph1, s.fault(n + 1), s.drawn);
      if ph2.SettingRole? { ServerRuns(x, s, sh2, v2, ph2, n + 2); } else { PublishedRuns(x, s, sh2, v2, ph2, n + 2); }
    } else {
      PublishedRuns(x, s, sh1, v1, ph1, n + 1);
    }
  }

  /** The first five calls of an ensure that finds the database lost, when the fifth fails. */
  lemma InterruptedOpens(x: Setup, s: Surroundings, sh: Shared, mid: Shared)
    requires PasswordIn(sh.secret) != [] && sh.role.Some? && !sh.database
    requires (forall k :: s.events(k) == []) && forall k :: s.fault(k) == if k == 4 then ErrorBefore else Fine
    requires mid == sh.(role := Some(PasswordIn(sh.secret)), database := true, public := true)
    ensures Execution(x, s, sh, None, Reading, 0) == (mid, None, Failed)
  {
    var pw := PasswordIn(sh.secret);
    Unfold(x, s, sh, None, Reading, 0);
    Unfold(x, s, sh, None, Checking(pw, sh.secret), 1);
    Unfold(x, s, sh, None, SettingRole(pw, sh.secret), 2);
    Unfold(x, s, sh.(role := Some(pw)), None, MakingDatabase(pw, sh.secret), 3);
    Unfold(x, s, mid, None, Restricting(pw, sh.secret), 4);
  }

  /** So a database can stay open to every role: when it was lost under a published password, and the
      ensure that makes it again fails before it closes it, the next ensure finds it in place and, without
      any fault, succeeds. */
  lemma LeftOpen(x: Setup, sh: Shared, drawn: bytes) returns (s: Surroundings, mid: Shared)
    requires PasswordIn(sh.secret) != [] && sh.role.Some? && !sh.database
    ensures Lossless(s) && s.drawn == drawn && forall k :: k >= 5 ==> s.fault(k) == Fine
    ensures Execution(x, s, sh, None, Reading, 0) == (mid, None, Failed)
    ensures var (end, _, ph) := Execution(x, s, mid, None, Reading, 5); ph.Succeeded? && end.database && end.public
  {
    s := Surroundings(_ => [], k => if k == 4 then ErrorBefore else Fine, drawn);
    var pw := PasswordIn(sh.secret);
    mid := sh.(role := Some(pw), database := true, public := true);
    InterruptedOpens(x, s, sh, mid);
    Unfold(x, s, mid, None, Reading, 5);
    Unfold(x, s, mid, None, Checking(pw, sh.secret), 6);
    if AfterServer(x, pw, sh.secret) == Publishing(pw) {
      Unfold(x, s, mid, Some(mid.now), Publishing(pw), 7);
      Unfold(x, s, mid, Some(mid.now), Writing(pw, true), 8);
    }
  }

  /** An ensure that finds everything in place changes nothing but the memory of when it looked. */
  lemma NothingToDo(x: Setup, s: Surroundings, sh: Shared, verified: Option<int>, n: nat, pw: bytes)
    requires Lossless(s) && Faultless(s) && Complete(x, sh, pw) && pw != []
    ensures var (end, _, ph) := Execution(x, s, sh, verified, Reading, n);
            end == sh.(now := end.now) && ph == Succeeded(pw)
  {
    QuietPassing(sh, s.events(n));
    Unfold(x, s, sh, verified, Reading, n);
    var (sh1, v1, ph1) := Next(x, HappenAll(sh, s.events(n)), verified, Reading, Fine, s.drawn);
    if ph1.Checking? {
      QuietPassing(sh1, s.events(n + 1));
      Unfold(x, s, sh1, v1, ph1, n + 1);
    }
  }

  /** Removal, with whatever happens around it: a Secret that carries no mark when it is read is left
      alone, with every fault; one that does is gone when no call fails; and neither way does removal touch
      role or database. */
  lemma RemovesOursOnly(x: Setup, s: Surroundings, sh: Shared, verified: Option<int>, n: nat)
    ensures var (end, v, ph) := Execution(x, s, sh, verified, RemoveReading, n);
            var found := HappenAll(sh, s.events(n));
            var later := HappenAll(found, s.events(n + 1));
            && v == verified
            && (ph.Removed? || ph.Failed?)
            && (found.secret.None? || found.secret.value.database == [] ==> end == found && (ph.Removed? <==> s.fault(n) == Fine))
            && (found.secret.Some? && found.secret.value.database != [] && s.fault(n) == Fine ==>
                  && (ph.Removed? <==> s.fault(n + 1) == Fine)
                  && end == if s.fault(n + 1) == ErrorBefore then later else later.(secret := None))
            && (s.fault(n) != Fine ==> end == found)
  {
    Unfold(x, s, sh, verified, RemoveReading, n);
    var (sh1, v1, ph1) := Next(x, HappenAll(sh, s.events(n)), verified, RemoveReading, s.fault(n), s.drawn);
    if ph1.Removing? { Unfold(x, s, sh1, v1, ph1, n + 1); }
  }

  /** PostgreSQL and Kubernetes as the provisioner sees them. */
  class Site {
    var shared: Shared
    var calls: nat

    constructor (shared: Shared)
      ensures this.shared == shared && calls == 0
    {
      this.shared, calls := shared, 0;
    }

    method Arrive(s: Surroundings) returns (fault: Fault)
      modifies this
      ensures calls == old(calls) + 1 && fault == s.fault(old(calls))
      ensures shared == HappenAll(old(shared), s.events(old(calls)))
    {
      var events := s.events(calls);
      fault := s.fault(calls);
      calls := calls + 1;
      var i := 0;
      while i < |events|
        invariant i <= |events|
        invariant HappenAll(shared, events[i..]) == HappenAll(old(shared), events)
        invariant calls == old(calls) + 1
      {
        assert events[i..][1..] == events[i + 1..];
        shared := Happen(shared, events[i]);
        i := i + 1;
      }
    }

    method GetSecret(s: Surroundings) returns (ok: bool, found: Option<Credentials>)
      modifies this
      ensures calls == old(calls) + 1 && shared == HappenAll(old(shared), s.events(old(calls)))
      ensures ok == (s.fault(old(calls)) == Fine) && found == shared.secret
    {
      var fault := Arrive(s);
      ok, found := fault == Fine, shared.secret;
    }

    method Exists(s: Surroundings) returns (ok: bool, exist: bool)
      modifies this
      ensures calls == old(calls) + 1 && shared == HappenAll(old(shared), s.events(old(calls)))
      ensures ok == (s.fault(old(calls)) == Fine) && exist == (shared.role.Some? && shared.database)
    {
      var fault := Arrive(s);
      ok, exist := fault == Fine, shared.role.Some? && shared.database;
    }

    method SetRole(s: Surroundings, pw: bytes) returns (ok: bool)
      modifies this
      ensures calls == old(calls) + 1 && ok == (s.fault(old(calls)) == Fine)
      ensures var found := HappenAll(old(shared), s.events(old(calls)));
              shared == if s.fault(old(calls)) == ErrorBefore then found else found.(role := Some(pw))
    {
      var fault := Arrive(s);
      if fault != ErrorBefore { shared := shared.(role := Some(pw)); }
      ok := fault == Fine;
    }

    method CreateDatabase(s: Surroundings) returns (ok: bool)
      modifies this
      ensures calls == old(calls) + 1
      ensures var found := HappenAll(old(shared), s.events(old(calls)));
              var refused := s.fault(old(calls)) == ErrorBefore || (!found.database && found.role.None?);
              && shared == (if refused then found else WithDatabase(found))
              && ok == (!refused && s.fault(old(calls)) == Fine)
    {
      var fault := Arrive(s);
      var refused := fault == ErrorBefore || (!shared.database && shared.role.None?);
      if !refused { shared := WithDatabase(shared); }
      ok := !refused && fault == Fine;
    }

    method Revoke(s: Surroundings) returns (ok: bool)
      modifies this
      ensures calls == old(calls) + 1
      ensures var found := HappenAll(old(shared), s.events(old(calls)));
              var refused := s.fault(old(calls)) == ErrorBefore || !found.database;
              && shared == (if refused then found else found.(public := false))
              && ok == (!refused && s.fault(old(calls)) == Fine)
    {
      var fault := Arrive(s);
      var refused := fault == ErrorBefore || !shared.database;
      if !refused { shared := shared.(public := false); }
      ok := !refused && fault == Fine;
    }

    /** Creates the Secret when it was not there, updates it when it was. */
    method WriteSecret(s: Surroundings, existed: bool, c: Credentials) returns (ok: bool)
      modifies this
      ensures calls == old(calls) + 1
      ensures var found := HappenAll(old(shared), s.events(old(calls)));
              var refused := s.fault(old(calls)) == ErrorBefore || existed != found.secret.Some?;
              && shared == (if refused then found else found.(secret := Some(c)))
              && ok == (!refused && s.fault(old(calls)) == Fine)
    {
      var fault := Arrive(s);
      var refused := fault == ErrorBefore || existed != shared.secret.Some?;
      if !refused { shared := shared.(secret := Some(c)); }
      ok := !refused && fault == Fine;
    }

    method DeleteSecret(s: Surroundings) returns (ok: bool)
      modifies this
      ensures calls == old(calls) + 1 && ok == (s.fault(old(calls)) == Fine)
      ensures var found := HappenAll(old(shared), s.events(old(calls)));
              shared == if s.fault(old(calls)) == ErrorBefore then found else found.(secret := None)
    {
      var fault := Arrive(s);
      if fault != ErrorBefore { shared := shared.(secret := None); }
      ok := fault == Fine;
    }
  }

  function Lookup(verified: map<bytes, int>, name: bytes): Option<int>
  {
    if name in verified then Some(verified[name]) else None
  }

  /** The provisioner and its memory of when each database was last verified. */
  class Provisioner {
    var verified: map<bytes, int>
    const site: Site

    constructor (site: Site)
      ensures this.site == site && verified == map[]
    {
      this.site, verified := site, map[];
    }

    method MarkVerified(name: bytes)
      modifies this
      ensures verified == old(verified)[name := site.shared.now]
    {
      verified := verified[name := site.shared.now];
    }

    /** Sets the role's password, makes the database and closes it to the public. */
    method AdminEnsure(x: Setup, s: Surroundings, pw: bytes, ghost seen: Option<Credentials>) returns (ok: bool)
      modifies site
      ensures var v := Lookup(verified, x.name);
              Execution(x, s, old(site.shared), v, SettingRole(pw, seen), old(site.calls))
              == if ok then Execution(x, s, site.shared, Some(site.shared.now), AfterServer(x, pw, seen), site.calls)
                 else (site.shared, v, Failed)
    {
      ghost var v := Lookup(verified, x.name);
      Unfold(x, s, site.shared, v, SettingRole(pw, seen), site.calls);
      ok := site.SetRole(s, pw);
      if !ok { return; }
      Unfold(x, s, site.shared, v, MakingDatabase(pw, seen), site.calls);
      ok := site.CreateDatabase(s);
      if !ok { return; }
      Unfold(x, s, site.shared, v, Restricting(pw, seen), site.calls);
      ok := site.Revoke(s);
    }

    /** Reads the Secret again and creates or updates it. */
    method Publish(x: Setup, s: Surroundings, pw: bytes) returns (ok: bool)
      modifies site
      ensures var v := Lookup(verified, x.name);
              Execution(x, s, old(site.shared), v, Publishing(pw), old(site.calls))
              == (site.shared, v, if ok then Succeeded(pw) else Failed)
    {
      ghost var v := Lookup(verified, x.name);
      Unfold(x, s, site.shared, v, Publishing(pw), site.calls);
      var current: Option<Credentials>;
      ok, current := site.GetSecret(s);
      if !ok { return; }
      Unfold(x, s, site.shared, v, Writing(pw, current.Some?), site.calls);
      ok := site.WriteSecret(s, current.Some?, Credentials(pw, x.dsn(pw), x.name));
    }

    /** One ensure runs exactly the machine's steps, whatever fails or is lost in between, and
        leaves the memory of other databases alone. */
    method Ensure(x: Setup, s: Surroundings) returns (dsn: Option<bytes>, ghost pw: bytes)
      modifies this, site
      ensures Execution(x, s, old(site.shared), Lookup(old(verified), x.name), Reading, old(site.calls))
           == (site.shared, Lookup(verified, x.name), if dsn.Some? then Succeeded(pw) else Failed)
      ensures dsn.Some? ==> dsn.value == x.dsn(pw)
      ensures forall name :: name != x.name ==> Lookup(verified, name) == Lookup(old(verified), name)
    {
      pw := [];
      dsn := None;
      Unfold(x, s, site.shared, Lookup(verified, x.name), Reading, site.calls);
      var ok, existing := site.GetSecret(s);
      if !ok { return; }
      var password := PasswordIn(existing);
      if password == [] {
        password := s.drawn;
        ok := AdminEnsure(x, s, password, existing);
        if !ok { return; }
        MarkVerified(x.name);
      } else if !RecentlyVerified(Lookup(verified, x.name), site.shared.now) {
        Unfold(x, s, site.shared, Lookup(verified, x.name), Checking(password, existing), site.calls);
        var exist: bool;
        ok, exist := site.Exists(s);
        if !ok { return; }
        if !exist {
          ok := AdminEnsure(x, s, password, existing);
          if !ok { return; }
        }
        MarkVerified(x.name);
      }
      pw := password;
      if existing.Some? && existing.value.dsn == x.dsn(password) && existing.value.database == x.name {
        return Some(x.dsn(password)), pw;
      }
      ok := Publish(x, s, password);
      if ok { dsn := Some(x.dsn(password)); }
    }

    /** Deletes the Secret if it carries the provisioner's mark; role and database stay. */
    method RemoveOurs(x: Setup, s: Surroundings) returns (ok: bool)
      modifies site
      ensures Execution(x, s, old(site.shared), Lookup(verified, x.name), RemoveReading, old(site.calls))
           == (site.shared, Lookup(verified, x.name), if ok then Removed else Failed)
    {
      Unfold(x, s, site.shared, Lookup(verified, x.name), RemoveReading, site.calls);
      var found: Option<Credentials>;
      ok, found := site.GetSecret(s);
      if !ok || found.None? || found.value.database == [] { return; }
      Unfold(x, s, site.shared, Lookup(verified, x.name), Removing, site.calls);
      ok := site.DeleteSecret(s);
    }
  }
}
