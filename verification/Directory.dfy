/** The user directory: internal/directory/directory.go, memory.go and recorder.go. Time is an
    integer (nanoseconds). */
module Directory {
  import opened Text
  import opened Sorting
  import opened Roles

  datatype User = User(
    sub: bytes,
    preferredUsername: bytes,
    name: bytes,
    email: bytes,
    workspaces: seq<bytes>,
    roles: map<bytes, bytes>,
    firstSeenAt: int,
    lastSeenAt: int)

  type Users = map<bytes, User>

  datatype Claims = Claims(subject: bytes, preferredUsername: bytes, name: bytes, email: bytes)

  // ---------------------------------------------------------------- the store

  function Keep(newVal: bytes, oldVal: bytes): bytes { if newVal != [] then newVal else oldVal }

  /** The most recent display claims, never erased by empty ones. */
  function Merge(prev: Option<User>, u: User, now: int): User
  {
    match prev
    case None => u.(firstSeenAt := now, lastSeenAt := now)
    case Some(o) =>
      u.(firstSeenAt := o.firstSeenAt,
         preferredUsername := Keep(u.preferredUsername, o.preferredUsername),
         name := Keep(u.name, o.name),
         email := Keep(u.email, o.email),
         lastSeenAt := now)
  }

  function Find(users: Users, sub: bytes): Option<User>
  {
    if sub in users then Some(users[sub]) else None
  }

  function Upserted(users: Users, u: User, now: int): Users
  {
    users[u.sub := Merge(Find(users, u.sub), u, now)]
  }

  /** Reads are scoped to a workspace the user belongs to. */
  function Visible(users: Users, sub: bytes, workspace: bytes): Option<User>
  {
    if sub in users && workspace in users[sub].workspaces then Some(users[sub]) else None
  }

  class MemoryStore {
    var users: Users

    constructor ()
      ensures users == map[]
    {
      users := map[];
    }

    method Upsert(u: User, now: int)
      modifies this
      ensures users == Upserted(old(users), u, now)
    {
      var existing := Find(users, u.sub);
      users := users[u.sub := Merge(existing, u, now)];
    }

    method Get(sub: bytes, workspace: bytes) returns (r: Option<User>)
      ensures r == Visible(users, sub, workspace)
    {
      if sub !in users { return None; }
      var u := users[sub];
      for i := 0 to |u.workspaces|
        invariant workspace !in u.workspaces[..i]
      {
        if u.workspaces[i] == workspace { return Some(u); }
      }
      assert u.workspaces[..|u.workspaces|] == u.workspaces;
      return None;
    }
  }

  // ---------------------------------------------------------------- what a token says

  /** The workspaces of a membership list, each once, in order of appearance. */
  function Distinct(ms: seq<Membership>): (r: seq<bytes>)
    ensures forall w :: w in r <==> exists i :: 0 <= i < |ms| && ms[i].workspace == w
  {
    if ms == [] then []
    else
      var n := |ms| - 1;
      var r := Distinct(ms[..n]);
      assert forall i :: 0 <= i < n ==> ms[..n][i] == ms[i];
      if ms[n].workspace in r then r else r + [ms[n].workspace]
  }

  function WorkspacesOf(ms: seq<Membership>): seq<bytes> { SortStrings(Distinct(ms)) }

  method WorkspacesOfLoop(ms: seq<Membership>) returns (out: seq<bytes>)
    ensures out == WorkspacesOf(ms)
  {
    var seen: set<bytes> := {};
    out := [];
    for i := 0 to |ms|
      invariant out == Distinct(ms[..i])
      invariant forall w :: w in seen <==> w in out
    {
      assert ms[..i + 1][..i] == ms[..i];
      var w := ms[i].workspace;
      if w in seen { continue; }
      seen := seen + {w};
      out := out + [w];
    }
    assert ms[..|ms|] == ms;
    out := SortStrings(out);
  }

  /** Each workspace with the least privileged of the roles listed for it. */
  function RolesOf(ms: seq<Membership>): map<bytes, bytes>
  {
    if ms == [] then map[]
    else
      var n := |ms| - 1;
      var out := RolesOf(ms[..n]);
      if ms[n].workspace in out && RoleRank(out[ms[n].workspace]) <= RoleRank(ms[n].role) then out
      else out[ms[n].workspace := ms[n].role]
  }

  method RolesOfLoop(ms: seq<Membership>) returns (out: map<bytes, bytes>)
    ensures out == RolesOf(ms)
  {
    out := map[];
    for i := 0 to |ms|
      invariant out == RolesOf(ms[..i])
    {
      assert ms[..i + 1][..i] == ms[..i];
      var m := ms[i];
      if m.workspace in out && RoleRank(out[m.workspace]) <= RoleRank(m.role) { continue; }
      out := out[m.workspace := m.role];
    }
    assert ms[..|ms|] == ms;
  }

  /** The recorded role is one of those listed, and ranks at most every one of them, whatever their
      order and however often they are repeated. */
  lemma {:induction false} RolesOfLeast(ms: seq<Membership>, w: bytes)
    ensures w in RolesOf(ms) <==> exists i :: 0 <= i < |ms| && ms[i].workspace == w
    ensures w in RolesOf(ms) ==>
              && Membership(w, RolesOf(ms)[w]) in ms
              && forall i :: 0 <= i < |ms| && ms[i].workspace == w ==> RoleRank(RolesOf(ms)[w]) <= RoleRank(ms[i].role)
  {
    if ms != [] {
      var n := |ms| - 1;
      RolesOfLeast(ms[..n], w);
      assert forall i :: 0 <= i < n ==> ms[..n][i] == ms[i];
      assert ms[n] in ms;
    }
  }

  /** What is recorded for a groups claim: viewer for a workspace if any entry says so, else editor if
      any says so, else owner if any does; and nothing for a workspace that no entry names. */
  lemma RecordedRole(groups: seq<bytes>, w: bytes)
    ensures var roles := RolesOf(DeriveMemberships(groups));
            && (w in roles <==> IsSlug(w) && LeastListed(groups, w) != "")
            && (w in roles ==> roles[w] == LeastListed(groups, w))
  {
    var ms := DeriveMemberships(groups);
    RolesOfLeast(ms, w);
    ListsMembership(groups, Membership(w, "viewer"));
    ListsMembership(groups, Membership(w, "editor"));
    ListsMembership(groups, Membership(w, "owner"));
    forall r | Membership(w, r) in ms ensures w in RolesOf(ms) {
      var i :| 0 <= i < |ms| && ms[i] == Membership(w, r);
    }
    if w in RolesOf(ms) {
      var m := Membership(w, RolesOf(ms)[w]);
      ListsMembership(groups, m);
      RoleNames(m.role);
      assert forall r :: Membership(w, r) in ms ==> RoleRank(m.role) <= RoleRank(r);
    }
  }

  lemma {:induction false} DistinctOnce(ms: seq<Membership>)
    ensures forall i, j :: 0 <= i < j < |Distinct(ms)| ==> Distinct(ms)[i] != Distinct(ms)[j]
  {
    if ms != [] { DistinctOnce(ms[..|ms| - 1]); }
  }

  lemma {:induction false} OnceCounted(s: seq<bytes>, x: bytes)
    ensures (forall i, j :: 0 <= i < j < |s| ==> s[i] != s[j]) ==> multiset(s)[x] <= 1
    ensures multiset(s)[x] <= 1 ==> forall i, j :: 0 <= i < j < |s| && s[i] == x ==> s[j] != x
  {
    if s != [] {
      var n := |s| - 1;
      OnceCounted(s[..n], x);
      InitLast(s);
      assert s[n] in s[..n] ==> exists i :: 0 <= i < n && s[i] == s[n];
    }
  }

  /** The recorded workspaces are those that some entry names, each once, in byte order. */
  lemma RecordedWorkspaces(groups: seq<bytes>, w: bytes)
    ensures var ws := WorkspacesOf(DeriveMemberships(groups));
            && (w in ws <==> IsSlug(w) && LeastListed(groups, w) != "")
            && Sorted(ws)
            && forall i, j :: 0 <= i < j < |ws| ==> ws[i] != ws[j]
  {
    var ms := DeriveMemberships(groups);
    var ws := WorkspacesOf(ms);
    RecordedRole(groups, w);
    RolesOfLeast(ms, w);
    SortStringsMembers(Distinct(ms));
    SortStringsSorts(Distinct(ms));
    DistinctOnce(ms);
    forall i, j | 0 <= i < j < |ws| ensures ws[i] != ws[j] {
      OnceCounted(Distinct(ms), ws[i]);
      OnceCounted(ws, ws[i]);
    }
  }

  /** The fields a token sets. */
  function Identity(c: Claims, ms: seq<Membership>): User
  {
    User(c.subject, c.preferredUsername, c.name, c.email, WorkspacesOf(ms), RolesOf(ms), 0, 0)
  }

  // ---------------------------------------------------------------- the fingerprint

  function RoleText(w: bytes, r: bytes): bytes { w + "=" + r }

  /** One of the orders in which Go may iterate over the role map. */
  ghost predicate IsListing(order: seq<bytes>, roles: map<bytes, bytes>)
  {
    && (forall i, j :: 0 <= i < j < |order| ==> order[i] != order[j])
    && (forall w :: w in order <==> w in roles)
  }

  ghost function Listing(keys: set<bytes>): (order: seq<bytes>)
    ensures forall i, j :: 0 <= i < j < |order| ==> order[i] != order[j]
    ensures forall w :: w in order <==> w in keys
  {
    if keys == {} then []
    else
      var w :| w in keys;
      [w] + Listing(keys - {w})
  }

  function RoleTexts(order: seq<bytes>, roles: map<bytes, bytes>): seq<bytes>
    requires forall w <- order :: w in roles
  {
    if order == [] then [] else RoleTexts(order[..|order| - 1], roles) + [RoleText(order[|order| - 1], roles[order[|order| - 1]])]
  }

  function FingerprintOf(u: User, texts: seq<bytes>): bytes
  {
    Join([u.preferredUsername, u.name, u.email, Join(u.workspaces, ','), Join(SortStrings(texts), ',')], '\0')
  }

  ghost function Fingerprint(u: User): bytes
  {
    FingerprintOf(u, RoleTexts(Listing(u.roles.Keys), u.roles))
  }

  lemma RoleTextsMultiset(a: seq<bytes>, b: seq<bytes>, roles: map<bytes, bytes>)
    requires IsListing(a, roles) && IsListing(b, roles)
    ensures multiset(RoleTexts(a, roles)) == multiset(RoleTexts(b, roles))
  {
    TextsAsImage(a, roles.Keys, roles);
    TextsAsImage(b, roles.Keys, roles);
  }

  /** The texts of distinct workspaces, as a multiset, depend on the set of workspaces only. */
  lemma {:induction false} TextsAsImage(order: seq<bytes>, keys: set<bytes>, roles: map<bytes, bytes>)
    requires keys <= roles.Keys
    requires forall w :: w in order <==> w in keys
    requires forall i, j :: 0 <= i < j < |order| ==> order[i] != order[j]
    ensures multiset(RoleTexts(order, roles)) == Image(keys, roles)
  {
    if order == [] {
      assert forall w :: w in keys ==> w in order;
      assert keys == {};
    } else {
      var n := |order| - 1;
      var w := order[n];
      assert order == order[..n] + [w];
      assert w in order;
      TextsAsImage(order[..n], keys - {w}, roles);
      ImageStep(keys, w, roles);
    }
  }

  ghost function Image(keys: set<bytes>, roles: map<bytes, bytes>): multiset<bytes>
    requires keys <= roles.Keys
  {
    if keys == {} then multiset{}
    else
      var w :| w in keys;
      Image(keys - {w}, roles) + multiset{RoleText(w, roles[w])}
  }

  /** Any key can be taken out first. */
  lemma {:induction false} ImageStep(keys: set<bytes>, w: bytes, roles: map<bytes, bytes>)
    requires keys <= roles.Keys && w in keys
    ensures Image(keys, roles) == Image(keys - {w}, roles) + multiset{RoleText(w, roles[w])}
    decreases keys
  {
    var v :| v in keys && Image(keys, roles) == Image(keys - {v}, roles) + multiset{RoleText(v, roles[v])};
    if v != w {
      ImageStep(keys - {v}, w, roles);
      ImageStep(keys - {w}, v, roles);
      assert keys - {v} - {w} == keys - {w} - {v};
    }
  }

  /** The fingerprint does not depend on the iteration order of the role map. */
  lemma FingerprintOrderFree(u: User, order: seq<bytes>)
    requires IsListing(order, u.roles)
    ensures FingerprintOf(u, RoleTexts(order, u.roles)) == Fingerprint(u)
  {
    var other := Listing(u.roles.Keys);
    RoleTextsMultiset(order, other, u.roles);
    SortStringsOrderFree(RoleTexts(order, u.roles), RoleTexts(other, u.roles));
  }

  method FingerprintLoop(u: User) returns (fp: bytes)
    ensures fp == Fingerprint(u)
  {
    var texts: seq<bytes> := [];
    ghost var order: seq<bytes> := [];
    var remaining := u.roles.Keys;
    while remaining != {}
      invariant remaining <= u.roles.Keys
      invariant forall w :: w in order <==> w in u.roles && w !in remaining
      invariant forall i, j :: 0 <= i < j < |order| ==> order[i] != order[j]
      invariant texts == RoleTexts(order, u.roles)
      decreases remaining
    {
      var w :| w in remaining;
      assert (order + [w])[..|order|] == order;
      texts := texts + [w + "=" + u.roles[w]];
      order := order + [w];
      remaining := remaining - {w};
    }
    FingerprintOrderFree(u, order);
    fp := Join([u.preferredUsername, u.name, u.email, Join(u.workspaces, ','), Join(SortStrings(texts), ',')], '\0');
  }
}
