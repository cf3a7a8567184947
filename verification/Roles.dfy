/** Workspace roles and the groups claim, after internal/auth/workspace.go. */
module Roles {
  import opened Text

  type Role = bytes

  const OWNER: Role := "owner"
  const EDITOR: Role := "editor"
  const VIEWER: Role := "viewer"
  const NO_ROLE: Role := ""

  const GROUP_PREFIX: bytes := "/workspaces/"

  datatype Membership = Membership(workspace: bytes, role: Role)

  function RoleRank(r: Role): (n: nat)
    ensures n <= 3
  {
    if r == OWNER then 3 else if r == EDITOR then 2 else if r == VIEWER then 1 else 0
  }

  function LesserRole(a: Role, b: Role): Role
  {
    if RoleRank(a) == 0 || RoleRank(b) == 0 then NO_ROLE else if RoleRank(a) <= RoleRank(b) then a else b
  }

  predicate SlugChar(c: byte) { 'a' <= c <= 'z' || '0' <= c <= '9' || c == '-' }

  predicate IsSlug(s: bytes) { s != [] && forall i :: 0 <= i < |s| ==> SlugChar(s[i]) }

  /** One groups entry against the pattern ^/workspaces/([a-z0-9-]+)/(owner|editor|viewer)$. */
  function ParseGroup(g: bytes): Option<Membership>
  {
    if GROUP_PREFIX <= g then EntryIn(g[|GROUP_PREFIX|..]) else None
  }

  /** What follows the prefix: a slug and a role. */
  function EntryIn(rest: bytes): Option<Membership>
  {
    var parts := Split(rest, '/');
    if |parts| == 2 && IsSlug(parts[0]) && RoleRank(parts[1]) > 0 then Some(Membership(parts[0], parts[1])) else None
  }

  function DeriveMemberships(groups: seq<bytes>): seq<Membership>
  {
    if groups == [] then []
    else
      var n := |groups| - 1;
      DeriveMemberships(groups[..n]) + (match ParseGroup(groups[n]) case Some(m) => [m] case None => [])
  }

  method DeriveMembershipsLoop(groups: seq<bytes>) returns (memberships: seq<Membership>)
    ensures memberships == DeriveMemberships(groups)
  {
    memberships := [];
    for i := 0 to |groups|
      invariant memberships == DeriveMemberships(groups[..i])
    {
      assert groups[..i + 1][..i] == groups[..i];
      var m := ParseGroup(groups[i]);
      if m.None? { continue; }
      memberships := memberships + [m.value];
    }
    assert groups[..|groups|] == groups;
  }

  function GroupEntry(workspace: bytes, role: Role): bytes
  {
    GROUP_PREFIX + workspace + "/" + role
  }

  lemma SlugAvoids(s: bytes, c: byte)
    requires IsSlug(s) && !SlugChar(c)
    ensures c !in s
  {
  }

  lemma RoleAvoids(r: Role, c: byte)
    requires RoleRank(r) > 0 && !SlugChar(c)
    ensures c !in r
  {
  }

  lemma EntryRead(m: Membership)
    requires IsSlug(m.workspace) && RoleRank(m.role) > 0
    ensures EntryIn(m.workspace + ['/'] + m.role) == Some(m)
  {
    SlugAvoids(m.workspace, '/');
    RoleAvoids(m.role, '/');
    SplitCons(m.workspace, '/', m.role);
    SplitClean(m.role, '/');
  }

  lemma EntryPrinted(rest: bytes, m: Membership)
    requires EntryIn(rest) == Some(m)
    ensures IsSlug(m.workspace) && RoleRank(m.role) > 0 && rest == m.workspace + ['/'] + m.role
  {
    JoinSplit(rest, '/');
    assert Split(rest, '/') == [m.workspace, m.role];
    JoinTwo(m.workspace, m.role, '/');
  }

  lemma PrefixStrips(prefix: bytes, g: bytes, rest: bytes)
    ensures prefix <= g && g[|prefix|..] == rest <==> g == prefix + rest
  {
    if prefix <= g { assert g == g[..|prefix|] + g[|prefix|..]; }
  }

  /** The three real roles. */
  lemma RoleNames(r: Role)
    ensures RoleRank(r) > 0 <==> r == "owner" || r == "editor" || r == "viewer"
  {
  }

  /** The parser accepts exactly the entries "/workspaces/<slug>/<role>" with one of the three roles, and
      reads back what was printed. */
  lemma GroupEntryReadBack(g: bytes, m: Membership)
    ensures ParseGroup(g) == Some(m) <==>
              && m.workspace != [] && (forall c <- m.workspace :: 'a' <= c <= 'z' || '0' <= c <= '9' || c == '-')
              && (m.role == "owner" || m.role == "editor" || m.role == "viewer")
              && g == "/workspaces/" + m.workspace + "/" + m.role
  {
    EntryReadBack(g, m);
    RoleNames(m.role);
    assert forall i :: 0 <= i < |m.workspace| ==> m.workspace[i] in m.workspace;
    assert GroupEntry(m.workspace, m.role) == "/workspaces/" + m.workspace + "/" + m.role;
  }

  lemma EntryReadBack(g: bytes, m: Membership)
    ensures ParseGroup(g) == Some(m) <==> IsSlug(m.workspace) && RoleRank(m.role) > 0 && g == GroupEntry(m.workspace, m.role)
  {
    var rest := m.workspace + ['/'] + m.role;
    assert GroupEntry(m.workspace, m.role) == GROUP_PREFIX + rest;
    PrefixStrips(GROUP_PREFIX, g, rest);
    if IsSlug(m.workspace) && RoleRank(m.role) > 0 { EntryRead(m); }
    if ParseGroup(g) == Some(m) { EntryPrinted(g[|GROUP_PREFIX|..], m); }
  }

  /** Memberships are exactly the readable entries. */
  lemma {:induction false} MembershipsOf(groups: seq<bytes>, m: Membership)
    ensures m in DeriveMemberships(groups) <==> exists g <- groups :: ParseGroup(g) == Some(m)
  {
    if groups != [] {
      var n := |groups| - 1;
      MembershipsOf(groups[..n], m);
      assert groups == groups[..n] + [groups[n]];
    }
  }

  /** A membership list as DeriveMemberships makes it. */
  predicate Genuine(ms: seq<Membership>)
  {
    forall i :: 0 <= i < |ms| ==> IsSlug(ms[i].workspace) && RoleRank(ms[i].role) > 0
  }

  lemma {:induction false} DerivedGenuine(groups: seq<bytes>)
    ensures Genuine(DeriveMemberships(groups))
  {
    if groups != [] {
      var n := |groups| - 1;
      DerivedGenuine(groups[..n]);
      if ParseGroup(groups[n]).Some? { EntryReadBack(groups[n], ParseGroup(groups[n]).value); }
    }
  }

  /** The entry for this workspace and role is among the groups, letter for letter. */
  predicate Lists(groups: seq<bytes>, w: bytes, r: Role) { "/workspaces/" + w + "/" + r in groups }

  /** A membership is derived exactly when its entry is listed. */
  lemma ListsMembership(groups: seq<bytes>, m: Membership)
    ensures m in DeriveMemberships(groups) <==> IsSlug(m.workspace) && RoleRank(m.role) > 0 && Lists(groups, m.workspace, m.role)
  {
    MembershipsOf(groups, m);
    var entry := GroupEntry(m.workspace, m.role);
    assert entry == "/workspaces/" + m.workspace + "/" + m.role;
    EntryReadBack(entry, m);
    if g :| g in groups && ParseGroup(g) == Some(m) { EntryReadBack(g, m); }
  }

  /** The least privileged of the roles listed for a workspace; none if none is. */
  function LeastListed(groups: seq<bytes>, w: bytes): Role
  {
    if Lists(groups, w, "viewer") then "viewer"
    else if Lists(groups, w, "editor") then "editor"
    else if Lists(groups, w, "owner") then "owner"
    else ""
  }

  /** The lesser of two real roles: viewer if either is, else editor if either is, else owner; and no
      role if one of the two is none. */
  lemma LesserRoleNamed(a: Role, b: Role)
    ensures LesserRole(a, b)
         == if (a == "owner" || a == "editor" || a == "viewer") && (b == "owner" || b == "editor" || b == "viewer") then
              if a == "viewer" || b == "viewer" then "viewer" else if a == "editor" || b == "editor" then "editor" else "owner"
            else ""
  {
    RoleNames(a);
    RoleNames(b);
  }
}
