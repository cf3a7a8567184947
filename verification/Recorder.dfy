/** The debounced recorder of internal/directory/recorder.go against one that writes on every call. */
module Recorder {
  import opened Text
  import opened Sorting
  import opened Roles
  import opened Directory

  datatype Seen = Seen(fingerprint: bytes, at: int)

  /** One call of Observe: the claims of a verified token if there are any, its groups, the clock, and
      whether the store would fail the write. */
  datatype Event = Observe(claims: Option<Claims>, groups: seq<bytes>, now: int, fails: bool) | Reset

  /** The store's entries and the recorder's memory of what it wrote. */
  datatype State = State(users: Users, seen: map<bytes, Seen>)

  const EMPTY := State(map[], map[])

  predicate Records(e: Event) { e.Observe? && e.claims.Some? && e.claims.value.subject != [] }

  function UserOf(e: Event): User
    requires Records(e)
  {
    Identity(e.claims.value, DeriveMemberships(e.groups))
  }

  ghost predicate Skips(interval: int, st: State, u: User, now: int)
  {
    u.sub in st.seen && st.seen[u.sub].fingerprint == Fingerprint(u) && now - st.seen[u.sub].at < interval
  }

  function Written(st: State, u: User, fp: bytes, now: int): State
  {
    State(Upserted(st.users, u, now), st.seen[u.sub := Seen(fp, now)])
  }

  /** One call of Observe, for the user the token describes. */
  ghost function ObservedUser(interval: int, st: State, u: User, now: int, fails: bool): State
  {
    if Skips(interval, st, u, now) || fails then st else Written(st, u, Fingerprint(u), now)
  }

  ghost function Observed(interval: int, st: State, e: Event): State
  {
    if e.Reset? then st.(seen := map[])
    else if !Records(e) then st
    else ObservedUser(interval, st, UserOf(e), e.now, e.fails)
  }

  /** The recorder that upserts on every call. */
  function Plain(users: Users, e: Event): Users
  {
    if !Records(e) || e.fails then users else Upserted(users, UserOf(e), e.now)
  }

  class Recorder {
    const store: MemoryStore
    const interval: int
    var seen: map<bytes, Seen>

    ghost function View(): State
      reads this, store
    {
      State(store.users, seen)
    }

    constructor (store: MemoryStore, interval: int)
      ensures this.store == store && this.interval == interval && seen == map[]
    {
      this.store, this.interval, seen := store, interval, map[];
    }

    method ResetSeen()
      modifies this
      ensures View() == Observed(interval, old(View()), Reset)
    {
      seen := map[];
    }

    method Observe(claims: Option<Claims>, groups: seq<bytes>, now: int, fails: bool)
      modifies this, store
      ensures View() == Observed(interval, old(View()), Event.Observe(claims, groups, now, fails))
    {
      if claims.None? || claims.value.subject == [] { return; }
      var c := claims.value;
      var memberships := DeriveMembershipsLoop(groups);
      var workspaces := WorkspacesOfLoop(memberships);
      var roles := RolesOfLoop(memberships);
      var u := User(c.subject, c.preferredUsername, c.name, c.email, workspaces, roles, 0, 0);
      var fp := FingerprintLoop(u);
      if u.sub in seen && seen[u.sub].fingerprint == fp && now - seen[u.sub].at < interval { return; }
      if fails { return; }
      store.Upsert(u, now);
      seen := seen[u.sub := Seen(fp, now)];
    }
  }

  // ---------------------------------------------------------------- equal fingerprints

  predicate NulFree(u: User) { '\0' !in u.preferredUsername && '\0' !in u.name && '\0' !in u.email }

  /** Workspaces and roles as they come from a groups claim. */
  predicate Slugged(u: User)
  {
    && (forall i :: 0 <= i < |u.workspaces| ==> IsSlug(u.workspaces[i]))
    && (forall w <- u.roles :: IsSlug(w) && RoleRank(u.roles[w]) > 0)
  }

  predicate SameAccess(u: User, v: User) { u.workspaces == v.workspaces && u.roles == v.roles }

  predicate SameDisplay(u: User, v: User)
  {
    u.preferredUsername == v.preferredUsername && u.name == v.name && u.email == v.email
  }

  predicate SameData(u: User, v: User) { SameDisplay(u, v) && SameAccess(u, v) }

  lemma RoleTextReadBack(w: bytes, r: bytes)
    requires IsSlug(w) && RoleRank(r) > 0
    ensures Split(RoleText(w, r), '=') == [w, r]
    ensures ',' !in RoleText(w, r) && '\0' !in RoleText(w, r)
  {
    SlugAvoids(w, '=');
    SlugAvoids(w, ',');
    SlugAvoids(w, '\0');
    RoleAvoids(r, '=');
    RoleAvoids(r, ',');
    RoleAvoids(r, '\0');
    SplitCons(w, '=', r);
    SplitClean(r, '=');
  }

  lemma {:induction false} RoleTextsAt(order: seq<bytes>, roles: map<bytes, bytes>)
    requires forall w <- order :: w in roles
    ensures |RoleTexts(order, roles)| == |order|
    ensures forall i :: 0 <= i < |order| ==> RoleTexts(order, roles)[i] == RoleText(order[i], roles[order[i]])
  {
    if order != [] {
      var n := |order| - 1;
      RoleTextsAt(order[..n], roles);
      assert forall i :: 0 <= i < n ==> order[..n][i] == order[i];
    }
  }

  lemma RoleTextsMembers(order: seq<bytes>, roles: map<bytes, bytes>, t: bytes)
    requires IsListing(order, roles)
    ensures t in RoleTexts(order, roles) <==> exists w <- roles :: t == RoleText(w, roles[w])
  {
    RoleTextsAt(order, roles);
    if w :| w in roles && t == RoleText(w, roles[w]) {
      assert w in order;
    }
  }

  lemma {:induction false} JoinAvoids(parts: seq<bytes>, sep: byte, c: byte)
    requires c != sep
    requires forall i :: 0 <= i < |parts| ==> c !in parts[i]
    ensures c !in Join(parts, sep)
  {
    if |parts| > 1 { JoinAvoids(parts[1..], sep, c); }
  }

  /** Lists of non-empty pieces without the separator are equal when their joins are. */
  lemma JoinInjective(a: seq<bytes>, b: seq<bytes>, sep: byte)
    requires forall i :: 0 <= i < |a| ==> a[i] != [] && sep !in a[i]
    requires forall i :: 0 <= i < |b| ==> b[i] != [] && sep !in b[i]
    requires Join(a, sep) == Join(b, sep)
    ensures a == b
  {
    if a != [] && b != [] {
      SplitJoin(a, sep);
      SplitJoin(b, sep);
    }
  }

  ghost function SortedTexts(u: User): seq<bytes>
  {
    SortStrings(RoleTexts(Listing(u.roles.Keys), u.roles))
  }

  /** The sorted texts of a slugged user: exactly its roles, readable. */
  lemma SortedTextsReadable(u: User)
    requires Slugged(u)
    ensures forall t :: t in SortedTexts(u) <==> exists w <- u.roles :: t == RoleText(w, u.roles[w])
    ensures forall i :: 0 <= i < |SortedTexts(u)| ==> SortedTexts(u)[i] != [] && ',' !in SortedTexts(u)[i] && '\0' !in SortedTexts(u)[i]
  {
    var order := Listing(u.roles.Keys);
    var texts := RoleTexts(order, u.roles);
    SortStringsMembers(texts);
    forall t ensures t in SortedTexts(u) <==> exists w <- u.roles :: t == RoleText(w, u.roles[w]) {
      RoleTextsMembers(order, u.roles, t);
    }
    forall i | 0 <= i < |SortedTexts(u)| ensures SortedTexts(u)[i] != [] && ',' !in SortedTexts(u)[i] && '\0' !in SortedTexts(u)[i] {
      var t := SortedTexts(u)[i];
      assert t in SortedTexts(u);
      var w :| w in u.roles && t == RoleText(w, u.roles[w]);
      RoleTextReadBack(w, u.roles[w]);
    }
  }

  /** A role of u is a role of v when the texts agree. */
  lemma RoleCarriesOver(u: User, v: User, w: bytes)
    requires Slugged(u) && Slugged(v) && SortedTexts(u) == SortedTexts(v)
    requires w in u.roles
    ensures w in v.roles && v.roles[w] == u.roles[w]
  {
    SortedTextsReadable(u);
    SortedTextsReadable(v);
    var t := RoleText(w, u.roles[w]);
    assert t in SortedTexts(v);
    var x :| x in v.roles && t == RoleText(x, v.roles[x]);
    RoleTextReadBack(w, u.roles[w]);
    RoleTextReadBack(x, v.roles[x]);
    assert [w, u.roles[w]] == [x, v.roles[x]];
    assert [w, u.roles[w]][0] == w && [w, u.roles[w]][1] == u.roles[w];
  }

  function Display(u: User): seq<bytes> { [u.preferredUsername, u.name, u.email] }

  ghost function Access(u: User): seq<bytes> { [Join(u.workspaces, ','), Join(SortedTexts(u), ',')] }

  lemma AccessNulFree(u: User)
    requires Slugged(u)
    ensures '\0' !in Access(u)[0] && '\0' !in Access(u)[1]
  {
    SortedTextsReadable(u);
    forall i | 0 <= i < |u.workspaces| ensures '\0' !in u.workspaces[i] { SlugAvoids(u.workspaces[i], '\0'); }
    JoinAvoids(u.workspaces, ',', '\0');
    JoinAvoids(SortedTexts(u), ',', '\0');
  }

  lemma FingerprintParts(u: User)
    ensures Fingerprint(u) == Join(Display(u) + Access(u), '\0')
  {
    assert Display(u) + Access(u)
        == [u.preferredUsername, u.name, u.email, Join(u.workspaces, ','), Join(SortedTexts(u), ',')];
  }

  /** The last two pieces of a fingerprint are the access, whatever the display claims hold. */
  lemma FingerprintPieces(u: User)
    requires Slugged(u)
    ensures Split(Fingerprint(u), '\0') == Split(Join(Display(u), '\0'), '\0') + Access(u)
  {
    FingerprintParts(u);
    AccessNulFree(u);
    JoinAppend(Display(u), Access(u), '\0');
    SplitAround(Join(Display(u), '\0'), Join(Access(u), '\0'), '\0');
    SplitJoin(Access(u), '\0');
  }

  lemma SameTail<T>(a: seq<T>, x: T, y: T, b: seq<T>, z: T, w: T)
    requires a + [x, y] == b + [z, w]
    ensures a == b && x == z && y == w
  {
    var l, r := a + [x, y], b + [z, w];
    assert |a| == |l| - 2 == |b|;
    assert l[|a|] == x && r[|b|] == z && l[|a| + 1] == y && r[|b| + 1] == w;
    assert a == l[..|a|] && b == r[..|b|];
  }

  lemma AccessRead(u: User, v: User)
    requires Slugged(u) && Slugged(v) && Access(u) == Access(v)
    ensures SameAccess(u, v)
  {
    assert Access(u)[0] == Access(v)[0] && Access(u)[1] == Access(v)[1];
    SlugsAvoidComma(u);
    SlugsAvoidComma(v);
    JoinInjective(u.workspaces, v.workspaces, ',');
    SortedTextsReadable(u);
    SortedTextsReadable(v);
    JoinInjective(SortedTexts(u), SortedTexts(v), ',');
    forall w | w in u.roles ensures w in v.roles && v.roles[w] == u.roles[w] { RoleCarriesOver(u, v, w); }
    forall w | w in v.roles ensures w in u.roles { RoleCarriesOver(v, u, w); }
  }

  lemma SlugsAvoidComma(u: User)
    requires Slugged(u)
    ensures forall i :: 0 <= i < |u.workspaces| ==> u.workspaces[i] != [] && ',' !in u.workspaces[i]
  {
    forall i | 0 <= i < |u.workspaces| ensures ',' !in u.workspaces[i] { SlugAvoids(u.workspaces[i], ','); }
  }

  /** Equal fingerprints mean equal workspaces and roles, whatever the display claims hold. */
  lemma FingerprintFixesAccess(u: User, v: User)
    requires Slugged(u) && Slugged(v) && Fingerprint(u) == Fingerprint(v)
    ensures SameAccess(u, v) && Split(Join(Display(u), '\0'), '\0') == Split(Join(Display(v), '\0'), '\0')
  {
    FingerprintPieces(u);
    FingerprintPieces(v);
    var a, b := Split(Join(Display(u), '\0'), '\0'), Split(Join(Display(v), '\0'), '\0');
    SameTail(a, Access(u)[0], Access(u)[1], b, Access(v)[0], Access(v)[1]);
    AccessRead(u, v);
  }

  /** The display claims make three pieces exactly when they hold no NUL. */
  lemma DisplayPieces(u: User)
    ensures NulFree(u) <==> |Split(Join(Display(u), '\0'), '\0')| == 3
    ensures NulFree(u) ==> Split(Join(Display(u), '\0'), '\0') == Display(u)
  {
    var d := Display(u);
    CountJoin(d, '\0');
    TotalZero(d, '\0');
    SplitLength(Join(d, '\0'), '\0');
    assert d[0] == u.preferredUsername && d[1] == u.name && d[2] == u.email;
    if NulFree(u) { SplitJoin(d, '\0'); }
  }

  /** As soon as one of two users has no NUL in its display claims, equal fingerprints mean equal
      claims, workspaces and role maps, and conversely. */
  lemma FingerprintInjective(u: User, v: User)
    requires Slugged(u) && Slugged(v) && (NulFree(u) || NulFree(v))
    ensures Fingerprint(u) == Fingerprint(v) <==> SameData(u, v)
  {
    if Fingerprint(u) == Fingerprint(v) {
      FingerprintFixesAccess(u, v);
      DisplayPieces(u);
      DisplayPieces(v);
      assert Display(u)[0] == Display(v)[0] && Display(u)[1] == Display(v)[1] && Display(u)[2] == Display(v)[2];
    }
  }

  /** A separator inside a piece reads the same as one between two pieces. */
  lemma SeparatorMoves(a: bytes, b: bytes, c: bytes, rest: seq<bytes>, sep: byte)
    requires rest != []
    ensures Join([a + [sep] + b, c] + rest, sep) == Join([a, b + [sep] + c] + rest, sep)
  {
    var tail := Join(rest, sep);
    var p, q := [a + [sep] + b, c] + rest, [a, b + [sep] + c] + rest;
    assert p[1..] == [c] + rest && p[1..][1..] == rest;
    assert q[1..] == [b + [sep] + c] + rest && q[1..][1..] == rest;
    assert Join(p, sep) == (a + [sep] + b) + [sep] + (c + [sep] + tail);
    assert Join(q, sep) == a + [sep] + ((b + [sep] + c) + [sep] + tail);
  }

  function Renamed(u: User, username: bytes, name: bytes, email: bytes): User
  {
    u.(preferredUsername := username, name := name, email := email)
  }

  lemma RenamedParts(u: User, username: bytes, name: bytes, email: bytes)
    ensures Fingerprint(Renamed(u, username, name, email)) == Join([username, name, email] + Access(u), '\0')
  {
    FingerprintParts(Renamed(u, username, name, email));
  }

  /** A NUL between username and name can stand in either. */
  lemma UsernameCollides(u: User, a: bytes, b: bytes, c: bytes)
    ensures Fingerprint(Renamed(u, a + ['\0'] + b, c, u.email)) == Fingerprint(Renamed(u, a, b + ['\0'] + c, u.email))
  {
    var rest := [u.email] + Access(u);
    RenamedParts(u, a + ['\0'] + b, c, u.email);
    RenamedParts(u, a, b + ['\0'] + c, u.email);
    SeparatorMoves(a, b, c, rest, '\0');
    assert [a + ['\0'] + b, c, u.email] + Access(u) == [a + ['\0'] + b, c] + rest;
    assert [a, b + ['\0'] + c, u.email] + Access(u) == [a, b + ['\0'] + c] + rest;
  }

  /** A NUL between name and email can stand in either. */
  lemma EmailCollides(u: User, a: bytes, b: bytes, c: bytes)
    ensures Fingerprint(Renamed(u, u.preferredUsername, a + ['\0'] + b, c))
         == Fingerprint(Renamed(u, u.preferredUsername, a, b + ['\0'] + c))
  {
    var x := u.preferredUsername;
    RenamedParts(u, x, a + ['\0'] + b, c);
    RenamedParts(u, x, a, b + ['\0'] + c);
    SeparatorMoves(a, b, c, Access(u), '\0');
    var p, q := [a + ['\0'] + b, c] + Access(u), [a, b + ['\0'] + c] + Access(u);
    JoinAppend([x], p, '\0');
    JoinAppend([x], q, '\0');
    assert [x, a + ['\0'] + b, c] + Access(u) == [x] + p;
    assert [x, a, b + ['\0'] + c] + Access(u) == [x] + q;
  }

  lemma UsernameNulCollides(u: User) returns (v: User)
    requires '\0' in u.preferredUsername
    ensures v == Renamed(u, v.preferredUsername, v.name, v.email) && Fingerprint(v) == Fingerprint(u)
    ensures v.name != [] && v.name != u.name
  {
    var x := u.preferredUsername;
    CutAt(x, '\0');
    var a, b := x[..IndexOf(x, '\0')], x[IndexOf(x, '\0') + 1..];
    v := Renamed(u, a, b + ['\0'] + u.name, u.email);
    UsernameCollides(u, a, b, u.name);
    assert u == Renamed(u, x, u.name, u.email) && |v.name| > |u.name|;
  }

  lemma NameNulCollides(u: User) returns (v: User)
    requires '\0' in u.name
    ensures v == Renamed(u, v.preferredUsername, v.name, v.email) && Fingerprint(v) == Fingerprint(u)
    ensures v.preferredUsername != [] && v.preferredUsername != u.preferredUsername
  {
    var x, y := u.preferredUsername, u.name;
    CutAt(y, '\0');
    var b, c := y[..IndexOf(y, '\0')], y[IndexOf(y, '\0') + 1..];
    v := Renamed(u, x + ['\0'] + b, c, u.email);
    UsernameCollides(u, x, b, c);
    assert u == Renamed(u, x, y, u.email) && |v.preferredUsername| > |x|;
  }

  lemma EmailNulCollides(u: User) returns (v: User)
    requires '\0' in u.email
    ensures v == Renamed(u, v.preferredUsername, v.name, v.email) && Fingerprint(v) == Fingerprint(u)
    ensures v.name != [] && v.name != u.name
  {
    var y, z := u.name, u.email;
    CutAt(z, '\0');
    var b, c := z[..IndexOf(z, '\0')], z[IndexOf(z, '\0') + 1..];
    v := Renamed(u, u.preferredUsername, y + ['\0'] + b, c);
    EmailCollides(u, y, b, c);
    assert u == Renamed(u, u.preferredUsername, y, z) && |v.name| > |y|;
  }

  /** Every user with a NUL in a display claim shares its fingerprint with one whose claims differ so
      that a store would show it: a different username or name that is not empty. */
  lemma NulCollides(u: User) returns (v: User)
    requires !NulFree(u)
    ensures v == Renamed(u, v.preferredUsername, v.name, v.email) && Fingerprint(v) == Fingerprint(u)
    ensures (v.preferredUsername != [] && v.preferredUsername != u.preferredUsername) || (v.name != [] && v.name != u.name)
  {
    if '\0' in u.preferredUsername {
      v := UsernameNulCollides(u);
    } else if '\0' in u.name {
      v := NameNulCollides(u);
    } else {
      v := EmailNulCollides(u);
    }
  }

  /** A user's fingerprint stands for that user's data alone if and only if no display claim of the
      user holds a NUL. */
  lemma FingerprintUnambiguous(u: User)
    requires Slugged(u)
    ensures (forall v :: Slugged(v) && Fingerprint(v) == Fingerprint(u) ==> SameData(u, v)) <==> NulFree(u)
  {
    if NulFree(u) {
      forall v | Slugged(v) && Fingerprint(v) == Fingerprint(u) ensures SameData(u, v) { FingerprintInjective(u, v); }
    } else {
      var v := NulCollides(u);
      assert Slugged(v) && Fingerprint(v) == Fingerprint(u) && !SameData(u, v);
    }
  }

  // ---------------------------------------------------------------- the refinement

  ghost function Run(interval: int, events: seq<Event>): State
  {
    if events == [] then EMPTY
    else Observed(interval, Run(interval, events[..|events| - 1]), events[|events| - 1])
  }

  function PlainRun(events: seq<Event>): Users
  {
    if events == [] then map[] else Plain(PlainRun(events[..|events| - 1]), events[|events| - 1])
  }

  predicate Recorded(e: Event) { Records(e) && !e.fails }

  /** What the recorded tokens of a run say. */
  function Tokens(events: seq<Event>): set<User>
  {
    if events == [] then {}
    else
      var n := |events| - 1;
      Tokens(events[..n]) + if Recorded(events[n]) then {UserOf(events[n])} else {}
  }

  /** No subject has two different recorded tokens that both hold a NUL in a display claim. */
  predicate ToldApart(tokens: set<User>)
  {
    forall u <- tokens, v <- tokens :: u.sub == v.sub && u != v ==> NulFree(u) || NulFree(v)
  }

  lemma IdentitySlugged(c: Claims, groups: seq<bytes>)
    ensures Slugged(Identity(c, DeriveMemberships(groups)))
  {
    var ms := DeriveMemberships(groups);
    DerivedGenuine(groups);
    SortStringsMembers(Distinct(ms));
    var ws := WorkspacesOf(ms);
    forall i | 0 <= i < |ws| ensures IsSlug(ws[i]) {
      assert ws[i] in ws;
      assert ws[i] in Distinct(ms);
    }
    forall w | w in RolesOf(ms) ensures IsSlug(w) && RoleRank(RolesOf(ms)[w]) > 0 {
      RolesOfLeast(ms, w);
      var i :| 0 <= i < |ms| && ms[i] == Membership(w, RolesOf(ms)[w]);
    }
  }

  predicate ShowsDisplay(stored: User, u: User)
  {
    && Keep(u.preferredUsername, stored.preferredUsername) == stored.preferredUsername
    && Keep(u.name, stored.name) == stored.name
    && Keep(u.email, stored.email) == stored.email
  }

  /** The memory of the recorder describes the store: u is what was last written for sub. */
  ghost predicate Wrote(st: State, sub: bytes, u: User)
  {
    && sub in st.seen && sub in st.users
    && u.sub == sub && Slugged(u)
    && st.seen[sub].fingerprint == Fingerprint(u)
    && st.seen[sub].at == st.users[sub].lastSeenAt
    && SameAccess(st.users[sub], u) && ShowsDisplay(st.users[sub], u)
  }

  ghost predicate Remembers(st: State, tokens: set<User>)
  {
    forall sub :: sub in st.seen ==> exists u <- tokens :: Wrote(st, sub, u)
  }

  /** Same entries, the display claims included if `display` says so, except that the debounced
      LastSeenAt trails by less than the interval. */
  predicate Follows(interval: int, display: bool, debounced: Users, plain: Users)
  {
    && debounced.Keys == plain.Keys
    && forall sub <- debounced ::
         && SameAccess(debounced[sub], plain[sub])
         && (display ==> SameDisplay(debounced[sub], plain[sub]))
         && debounced[sub].sub == plain[sub].sub
         && debounced[sub].firstSeenAt == plain[sub].firstSeenAt
         && plain[sub].lastSeenAt - debounced[sub].lastSeenAt < interval
  }

  predicate Refines(interval: int, debounced: Users, plain: Users) { Follows(interval, true, debounced, plain) }

  lemma WriteRemembers(st: State, tokens: set<User>, u: User, fp: bytes, now: int)
    requires Remembers(st, tokens) && u in tokens && Slugged(u) && fp == Fingerprint(u)
    ensures Remembers(Written(st, u, fp, now), tokens)
  {
    var next := Written(st, u, fp, now);
    forall sub | sub in next.seen ensures exists x <- tokens :: Wrote(next, sub, x) {
      if sub == u.sub {
        assert Wrote(next, sub, u);
      } else {
        var x :| x in tokens && Wrote(st, sub, x);
        assert Wrote(next, sub, x);
      }
    }
  }

  lemma WriteFollows(interval: int, display: bool, debounced: Users, plain: Users, u: User, now: int)
    requires interval > 0 && Follows(interval, display, debounced, plain)
    ensures Follows(interval, display, Upserted(debounced, u, now), Upserted(plain, u, now))
  {
    var a, b := Upserted(debounced, u, now), Upserted(plain, u, now);
    assert a.Keys == debounced.Keys + {u.sub} && b.Keys == plain.Keys + {u.sub};
  }

  /** A write that repeats what the entry already shows changes nothing but LastSeenAt. */
  lemma RepeatFollows(interval: int, display: bool, debounced: Users, plain: Users, v: User, now: int)
    requires Follows(interval, display, debounced, plain)
    requires v.sub in debounced && debounced[v.sub].sub == v.sub && SameAccess(debounced[v.sub], v)
    requires display ==> ShowsDisplay(debounced[v.sub], v)
    requires now - debounced[v.sub].lastSeenAt < interval
    ensures Follows(interval, display, debounced, Upserted(plain, v, now))
  {
    var b := Upserted(plain, v, now);
    assert b.Keys == plain.Keys;
  }

  predicate OwnSubs(users: Users) { forall sub <- users :: users[sub].sub == sub }

  ghost predicate Linked(interval: int, display: bool, tokens: set<User>, st: State, plain: Users)
  {
    Remembers(st, tokens) && OwnSubs(st.users) && Follows(interval, display, st.users, plain)
  }

  lemma WriteLinked(interval: int, display: bool, tokens: set<User>, st: State, plain: Users, u: User, fp: bytes, now: int)
    requires interval > 0 && u in tokens && Slugged(u) && fp == Fingerprint(u) && Linked(interval, display, tokens, st, plain)
    ensures Linked(interval, display, tokens, Written(st, u, fp, now), Upserted(plain, u, now))
  {
    WriteRemembers(st, tokens, u, fp, now);
    WriteFollows(interval, display, st.users, plain, u, now);
  }

  /** A skipped write would have been such a repetition. */
  lemma SkipLinked(interval: int, display: bool, tokens: set<User>, st: State, plain: Users, u: User, now: int)
    requires u in tokens && Slugged(u) && (display ==> ToldApart(tokens))
    requires Linked(interval, display, tokens, st, plain) && Skips(interval, st, u, now)
    ensures Linked(interval, display, tokens, st, Upserted(plain, u, now))
  {
    var w :| w in tokens && Wrote(st, u.sub, w);
    FingerprintFixesAccess(w, u);
    if display && w != u { FingerprintInjective(w, u); }
    RepeatFollows(interval, display, st.users, plain, u, now);
  }

  lemma StepLinked(interval: int, display: bool, tokens: set<User>, st: State, plain: Users, u: User, now: int, fails: bool)
    requires interval > 0 && Slugged(u) && (!fails ==> u in tokens) && (display ==> ToldApart(tokens))
    requires Linked(interval, display, tokens, st, plain)
    ensures Linked(interval, display, tokens, ObservedUser(interval, st, u, now, fails), if fails then plain else Upserted(plain, u, now))
  {
    if !fails {
      if Skips(interval, st, u, now) {
        SkipLinked(interval, display, tokens, st, plain, u, now);
      } else {
        WriteLinked(interval, display, tokens, st, plain, u, Fingerprint(u), now);
      }
    }
  }

  lemma {:induction false} RunLinked(interval: int, display: bool, tokens: set<User>, events: seq<Event>)
    requires interval > 0 && Tokens(events) <= tokens && (display ==> ToldApart(tokens))
    ensures Linked(interval, display, tokens, Run(interval, events), PlainRun(events))
  {
    if events != [] {
      var n := |events| - 1;
      var e := events[n];
      RunLinked(interval, display, tokens, events[..n]);
      if Records(e) {
        IdentitySlugged(e.claims.value, e.groups);
        StepLinked(interval, display, tokens, Run(interval, events[..n]), PlainRun(events[..n]), UserOf(e), e.now, e.fails);
      }
    }
  }

  /** Over every serialised run of Observe and Reset, with any pattern of failed writes, the store
      holds for each subject what a recorder that upserts on every call would hold, and LastSeenAt
      trails by less than the interval: workspaces and roles whatever the claims hold, and the
      display claims too when no subject has two different tokens with a NUL in them. */
  lemma DebounceRefines(interval: int, events: seq<Event>)
    requires interval > 0
    ensures Follows(interval, false, Run(interval, events).users, PlainRun(events))
    ensures ToldApart(Tokens(events)) ==> Refines(interval, Run(interval, events).users, PlainRun(events))
  {
    RunLinked(interval, false, Tokens(events), events);
    if ToldApart(Tokens(events)) { RunLinked(interval, true, Tokens(events), events); }
  }

  // ---------------------------------------------------------------- when the debounce goes wrong

  /** A token, and another one for the same subject right after it. */
  function Twice(c: Claims, groups: seq<bytes>, now: int, d: Claims, others: seq<bytes>, later: int): seq<Event>
  {
    [Event.Observe(Some(c), groups, now, false), Event.Observe(Some(d), others, later, false)]
  }

  lemma TwiceRuns(interval: int, c: Claims, groups: seq<bytes>, now: int, d: Claims, others: seq<bytes>, later: int)
    requires c.subject != [] && d.subject == c.subject
    ensures var u, v := Identity(c, DeriveMemberships(groups)), Identity(d, DeriveMemberships(others));
            var events := Twice(c, groups, now, d, others, later);
            && Tokens(events) == {u, v}
            && Run(interval, events) == ObservedUser(interval, ObservedUser(interval, EMPTY, u, now, false), v, later, false)
            && PlainRun(events) == Upserted(Upserted(map[], u, now), v, later)
  {
    var events := Twice(c, groups, now, d, others, later);
    var one := events[..1];
    assert one == [events[0]] && one[..0] == [] && events[..|events| - 1] == one;
    assert Run(interval, one) == Observed(interval, EMPTY, events[0]);
    assert PlainRun(one) == Plain(map[], events[0]);
    assert Tokens(one) == {UserOf(events[0])};
  }

  /** A token is debounced faithfully, whatever token of its subject comes next, if and only if none of
      its display claims holds a NUL. */
  lemma DebounceExactly(interval: int, c: Claims, groups: seq<bytes>, now: int)
    requires interval > 0 && c.subject != []
    ensures (forall d: Claims, others: seq<bytes>, later: int :: d.subject == c.subject ==>
               var events := Twice(c, groups, now, d, others, later);
               Refines(interval, Run(interval, events).users, PlainRun(events)))
            <==> NulFree(Identity(c, DeriveMemberships(groups)))
  {
    var u := Identity(c, DeriveMemberships(groups));
    if NulFree(u) {
      forall d: Claims, others: seq<bytes>, later: int | d.subject == c.subject
        ensures var events := Twice(c, groups, now, d, others, later);
                Refines(interval, Run(interval, events).users, PlainRun(events))
      {
        TwiceRuns(interval, c, groups, now, d, others, later);
        DebounceRefines(interval, Twice(c, groups, now, d, others, later));
      }
    } else {
      var d := LosesToken(interval, c, groups, now);
      var events := Twice(c, groups, now, d, groups, now);
      assert !Refines(interval, Run(interval, events).users, PlainRun(events));
    }
  }

  /** The run at which the debounce goes wrong: a second token with the same fingerprint, seen in the
      same instant, is taken for the first. */
  lemma LosesToken(interval: int, c: Claims, groups: seq<bytes>, now: int) returns (d: Claims)
    requires interval > 0 && c.subject != []
    requires !NulFree(Identity(c, DeriveMemberships(groups)))
    ensures d.subject == c.subject
    ensures var events := Twice(c, groups, now, d, groups, now);
            !Refines(interval, Run(interval, events).users, PlainRun(events))
  {
    var u := Identity(c, DeriveMemberships(groups));
    var v := NulCollides(u);
    d := Claims(c.subject, v.preferredUsername, v.name, v.email);
    assert v == Identity(d, DeriveMemberships(groups));
    TwiceRuns(interval, c, groups, now, d, groups, now);
    var st := Written(EMPTY, u, Fingerprint(u), now);
    assert Skips(interval, st, v, now);
    var plain := Upserted(Upserted(map[], u, now), v, now);
    assert st.users[u.sub].preferredUsername == u.preferredUsername && st.users[u.sub].name == u.name;
    assert plain[u.sub].preferredUsername == Keep(v.preferredUsername, u.preferredUsername);
    assert plain[u.sub].name == Keep(v.name, u.name);
  }

  // ---------------------------------------------------------------- the last recorded token

  /** Event e records a token of sub, or would if it were not a repetition. */
  predicate TokenFor(e: Event, sub: bytes) { Recorded(e) && e.claims.value.subject == sub }

  /** Event i is the last one with a recorded token of sub. */
  predicate LastRecorded(events: seq<Event>, sub: bytes, i: nat)
  {
    i < |events| && TokenFor(events[i], sub) && forall k :: i < k < |events| ==> !TokenFor(events[k], sub)
  }

  /** What one event leaves of a subject's entry. */
  lemma PlainStep(users: Users, e: Event, sub: bytes)
    ensures TokenFor(e, sub) ==>
              && sub in Plain(users, e)
              && Plain(users, e)[sub].roles == RolesOf(DeriveMemberships(e.groups))
              && Plain(users, e)[sub].workspaces == WorkspacesOf(DeriveMemberships(e.groups))
              && Plain(users, e)[sub].lastSeenAt == e.now
    ensures !TokenFor(e, sub) ==> Find(Plain(users, e), sub) == Find(users, sub)
  {
  }

  lemma LastRecordedGrows(events: seq<Event>, sub: bytes, i: nat)
    requires events != [] && LastRecorded(events[..|events| - 1], sub, i) && !TokenFor(events[|events| - 1], sub)
    ensures LastRecorded(events, sub, i)
  {
    assert forall k :: 0 <= k < |events| - 1 ==> events[..|events| - 1][k] == events[k];
  }

  lemma {:induction false} PlainHoldsLast(events: seq<Event>, sub: bytes) returns (i: nat)
    requires sub in PlainRun(events)
    ensures LastRecorded(events, sub, i)
    ensures PlainRun(events)[sub].roles == RolesOf(DeriveMemberships(events[i].groups))
    ensures PlainRun(events)[sub].workspaces == WorkspacesOf(DeriveMemberships(events[i].groups))
    ensures PlainRun(events)[sub].lastSeenAt == events[i].now
  {
    var n := |events| - 1;
    var before, e := events[..n], events[n];
    PlainStep(PlainRun(before), e, sub);
    if TokenFor(e, sub) {
      i := n;
    } else {
      i := PlainHoldsLast(before, sub);
      LastRecordedGrows(events, sub, i);
    }
  }

  lemma {:induction false} TokenIsHeld(events: seq<Event>, sub: bytes, i: nat)
    requires i < |events| && TokenFor(events[i], sub)
    ensures sub in PlainRun(events)
    decreases |events|
  {
    if i < |events| - 1 { TokenIsHeld(events[..|events| - 1], sub, i); }
  }

  lemma LastIsOne(events: seq<Event>, sub: bytes, i: nat, j: nat)
    requires LastRecorded(events, sub, i) && LastRecorded(events, sub, j)
    ensures i == j
  {
  }

  /** What the debounced directory holds for a subject comes from the subject's last recorded token, less
      than an interval ago as far as LastSeenAt goes. */
  lemma HeldFromLast(interval: int, events: seq<Event>, sub: bytes, i: nat)
    requires interval > 0 && LastRecorded(events, sub, i)
    ensures sub in Run(interval, events).users
    ensures var u, ms := Run(interval, events).users[sub], DeriveMemberships(events[i].groups);
            u.workspaces == WorkspacesOf(ms) && u.roles == RolesOf(ms) && events[i].now - u.lastSeenAt < interval
  {
    TokenIsHeld(events, sub, i);
    var j := PlainHoldsLast(events, sub);
    LastIsOne(events, sub, i, j);
    DebounceRefines(interval, events);
    assert sub in PlainRun(events).Keys;
  }

  /** The clock does not run backwards from one observed token to a later one. */
  predicate ClockRuns(events: seq<Event>)
  {
    forall i, j :: 0 <= i < j < |events| && Records(events[i]) && Records(events[j]) ==> events[i].now <= events[j].now
  }

  /** With such a clock the debounced LastSeenAt is never later than the plain one. */
  lemma {:induction false} NeverLater(interval: int, events: seq<Event>, sub: bytes)
    requires interval > 0 && ClockRuns(events) && sub in Run(interval, events).users
    ensures sub in PlainRun(events) && Run(interval, events).users[sub].lastSeenAt <= PlainRun(events)[sub].lastSeenAt
  {
    DebounceRefines(interval, events);
    var n := |events| - 1;
    var before, e := events[..n], events[n];
    assert forall k :: 0 <= k < n ==> before[k] == events[k];
    if sub in Run(interval, before).users {
      NeverLater(interval, before, sub);
      if TokenFor(e, sub) {
        var i := PlainHoldsLast(before, sub);
        assert events[i].now <= e.now;
      }
    }
  }

  /** The roles a debounced directory holds for a subject are those of the subject's last recorded
      token, each the least privileged of the roles that token lists for the workspace. */
  lemma RolesOfLastToken(interval: int, events: seq<Event>, sub: bytes, w: bytes) returns (i: nat)
    requires interval > 0
    requires sub in Run(interval, events).users
    ensures LastRecorded(events, sub, i)
    ensures var roles := Run(interval, events).users[sub].roles;
            && (w in roles <==> exists g <- events[i].groups :: ParseGroup(g).Some? && ParseGroup(g).value.workspace == w)
            && (w in roles ==> forall g <- events[i].groups ::
                  ParseGroup(g).Some? && ParseGroup(g).value.workspace == w ==> RoleRank(roles[w]) <= RoleRank(ParseGroup(g).value.role))
            && (w in roles <==> IsSlug(w) && LeastListed(events[i].groups, w) != "")
            && (w in roles ==> roles[w] == LeastListed(events[i].groups, w))
  {
    DebounceRefines(interval, events);
    i := PlainHoldsLast(events, sub);
    var groups := events[i].groups;
    var ms := DeriveMemberships(groups);
    RecordedRole(groups, w);
    RolesOfLeast(ms, w);
    if k :| 0 <= k < |ms| && ms[k].workspace == w {
      MembershipsOf(groups, ms[k]);
    }
    forall g | g in groups && ParseGroup(g).Some? && ParseGroup(g).value.workspace == w
      ensures w in RolesOf(ms) && RoleRank(RolesOf(ms)[w]) <= RoleRank(ParseGroup(g).value.role)
    {
      MembershipsOf(groups, ParseGroup(g).value);
    }
  }

  // ---------------------------------------------------------------- claims are never erased

  /** The three display claims. */
  datatype Field = Username | Name | Email

  function Claimed(f: Field, c: Claims): bytes
  {
    match f case Username => c.preferredUsername case Name => c.name case Email => c.email
  }

  function Stored(f: Field, u: User): bytes
  {
    match f case Username => u.preferredUsername case Name => u.name case Email => u.email
  }

  /** Event i claims v, which is not empty, and no later token of sub claims anything. */
  ghost predicate LastClaim(events: seq<Event>, sub: bytes, f: Field, v: bytes, i: nat)
  {
    && i < |events| && TokenFor(events[i], sub) && Claimed(f, events[i].claims.value) == v && v != []
    && forall k :: i < k < |events| && TokenFor(events[k], sub) ==> Claimed(f, events[k].claims.value) == []
  }

  /** v is the last non-empty one of the claims f in sub's recorded tokens; empty
      when all are. */
  ghost predicate LastNonEmpty(events: seq<Event>, sub: bytes, f: Field, v: bytes)
  {
    || (v == [] && forall k :: 0 <= k < |events| && TokenFor(events[k], sub) ==> Claimed(f, events[k].claims.value) == [])
    || (exists i: nat :: LastClaim(events, sub, f, v, i))
  }

  lemma LastClaimGrows(events: seq<Event>, sub: bytes, f: Field, v: bytes, e: Event, i: nat)
    requires LastClaim(events, sub, f, v, i) && (TokenFor(e, sub) ==> Claimed(f, e.claims.value) == [])
    ensures LastClaim(events + [e], sub, f, v, i)
  {
    assert forall k :: 0 <= k < |events| ==> (events + [e])[k] == events[k];
  }

  lemma NextNonEmpty(events: seq<Event>, sub: bytes, f: Field, v: bytes, e: Event)
    requires LastNonEmpty(events, sub, f, v)
    ensures LastNonEmpty(events + [e], sub, f, if TokenFor(e, sub) then Keep(Claimed(f, e.claims.value), v) else v)
  {
    if TokenFor(e, sub) && Claimed(f, e.claims.value) != [] {
      assert LastClaim(events + [e], sub, f, Claimed(f, e.claims.value), |events|);
    } else if v != [] {
      var i: nat :| LastClaim(events, sub, f, v, i);
      LastClaimGrows(events, sub, f, v, e, i);
    } else {
      assert forall k :: 0 <= k < |events| ==> (events + [e])[k] == events[k];
    }
  }

  function Entry(users: Users, sub: bytes, f: Field): bytes
  {
    if sub in users then Stored(f, users[sub]) else []
  }

  lemma {:induction false} PlainKeepsClaims(events: seq<Event>, sub: bytes, f: Field)
    ensures LastNonEmpty(events, sub, f, Entry(PlainRun(events), sub, f))
  {
    if events != [] {
      var n := |events| - 1;
      assert events == events[..n] + [events[n]];
      PlainKeepsClaims(events[..n], sub, f);
      NextNonEmpty(events[..n], sub, f, Entry(PlainRun(events[..n]), sub, f), events[n]);
    }
  }

  /** Over every run, each display claim the debounced directory holds for a subject is the last
      non-empty one among the subject's recorded tokens: never erased, never out of date. */
  lemma ClaimsNeverErased(interval: int, events: seq<Event>, sub: bytes, f: Field)
    requires interval > 0 && ToldApart(Tokens(events))
    requires sub in Run(interval, events).users
    ensures LastNonEmpty(events, sub, f, Stored(f, Run(interval, events).users[sub]))
  {
    DebounceRefines(interval, events);
    PlainKeepsClaims(events, sub, f);
  }

  // ---------------------------------------------------------------- who is known, and when it is written

  /** The directory knows exactly the subjects of the tokens it could record, and never an empty one. */
  lemma KnownExactly(interval: int, events: seq<Event>, sub: bytes)
    requires interval > 0
    ensures sub in Run(interval, events).users <==>
            sub != [] && exists i :: 0 <= i < |events| && events[i].Observe? && !events[i].fails
                                     && events[i].claims.Some? && events[i].claims.value.subject == sub
  {
    DebounceRefines(interval, events);
    assert sub in Run(interval, events).users <==> sub in PlainRun(events);
    if sub in PlainRun(events) {
      var i := PlainHoldsLast(events, sub);
      assert TokenFor(events[i], sub);
    }
    if i :| sub != [] && 0 <= i < |events| && events[i].Observe? && !events[i].fails
            && events[i].claims.Some? && events[i].claims.value.subject == sub {
      TokenIsHeld(events, sub, i);
    }
  }

  lemma {:induction false} PlainFirst(events: seq<Event>, sub: bytes) returns (i: nat)
    requires sub in PlainRun(events)
    ensures i < |events| && TokenFor(events[i], sub) && forall k :: 0 <= k < i ==> !TokenFor(events[k], sub)
    ensures PlainRun(events)[sub].firstSeenAt == events[i].now
  {
    var n := |events| - 1;
    var before := events[..n];
    if sub in PlainRun(before) {
      i := PlainFirst(before, sub);
    } else {
      i := n;
      forall k | 0 <= k < n && TokenFor(events[k], sub) ensures sub in PlainRun(before) { TokenIsHeld(before, sub, k); }
    }
  }

  /** FirstSeenAt is the time of the first token, and no later one moves it. */
  lemma FirstSeen(interval: int, events: seq<Event>, sub: bytes) returns (i: nat)
    requires interval > 0 && sub in Run(interval, events).users
    ensures i < |events| && TokenFor(events[i], sub) && forall k :: 0 <= k < i ==> !TokenFor(events[k], sub)
    ensures Run(interval, events).users[sub].firstSeenAt == events[i].now
  {
    DebounceRefines(interval, events);
    i := PlainFirst(events, sub);
  }

  lemma RunTwo(interval: int, events: seq<Event>, a: Event, b: Event)
    ensures Run(interval, events + [a]) == Observed(interval, Run(interval, events), a)
    ensures Run(interval, events + [a, b]) == Observed(interval, Observed(interval, Run(interval, events), a), b)
  {
    assert (events + [a])[..|events|] == events;
    assert (events + [a, b])[..|events| + 1] == events + [a];
  }

  /** After a reset the next token is written, however little time has passed. */
  lemma WrittenAfterReset(interval: int, events: seq<Event>, e: Event)
    requires Recorded(e)
    ensures var last := Run(interval, events + [Reset, e]);
            e.claims.value.subject in last.users && last.users[e.claims.value.subject].lastSeenAt == e.now
  {
    RunTwo(interval, events, Reset, e);
  }

  /** A token that says what the one written just before it says is written again exactly when the
      interval has passed. */
  lemma RepeatWritten(interval: int, events: seq<Event>, e: Event, d: Event)
    requires Recorded(e) && Recorded(d) && UserOf(d) == UserOf(e)
    requires e.claims.value.subject !in Run(interval, events).seen
    ensures var last := Run(interval, events + [e, d]);
            && e.claims.value.subject in last.users
            && last.users[e.claims.value.subject].lastSeenAt == if d.now - e.now < interval then e.now else d.now
  {
    RunTwo(interval, events, e, d);
  }

  /** A token with other workspaces or roles is written at once: a demotion does not wait. */
  lemma ChangeWritten(interval: int, events: seq<Event>, e: Event, d: Event)
    requires Recorded(e) && Recorded(d) && d.claims.value.subject == e.claims.value.subject
    requires !SameAccess(UserOf(e), UserOf(d))
    ensures var last := Run(interval, events + [e, d]);
            && e.claims.value.subject in last.users
            && last.users[e.claims.value.subject].lastSeenAt == d.now
            && SameAccess(last.users[e.claims.value.subject], UserOf(d))
  {
    RunTwo(interval, events, e, d);
    IdentitySlugged(e.claims.value, e.groups);
    IdentitySlugged(d.claims.value, d.groups);
    if Fingerprint(UserOf(e)) == Fingerprint(UserOf(d)) { FingerprintFixesAccess(UserOf(e), UserOf(d)); }
  }
}
