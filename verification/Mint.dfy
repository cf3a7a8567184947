/** Minting workload tokens, after internal/workload/service.go, on top of the recorded directory. */
module Mint {
  import opened Text
  import opened Roles
  import opened Directory
  import opened Recorder
  import opened Sorting

  datatype Request = Request(workspace: bytes, subject: bytes, roleCeiling: bytes, owner: bytes)

  datatype Account = Account(role: Role, disabled: bool)

  /** What Mint consults: which modules may mint, the two stores (None when they cannot answer), the
      clock and the two durations. */
  datatype Service = Service(
    mayMint: bytes -> bool,
    users: Option<Users>,
    accounts: Option<map<(bytes, bytes), Account>>,
    now: int,
    ttl: int,
    maxOwnerAge: int)

  datatype Refusal = InvalidRequest | NotEntitled | OwnerNoAccess | ServiceAccountDisabled | ServiceAccountNotFound | Unavailable

  /** The claims that are signed. */
  datatype Token = Token(groups: seq<bytes>, subject: bytes, moduleID: bytes, owner: bytes, role: Role, issuedAt: int, notBefore: int, expiresAt: int)

  datatype Result<+T> = Ok(value: T) | Refused(refusal: Refusal)

  const SERVICE_ACCOUNT_PREFIX: bytes := "svc:"
  const API_WRITE: bytes := "apiwrite"
  const API_MODULE: bytes := "api"

  // ---------------------------------------------------------------- the request

  /** strings.Cut at the first separator. */
  function Cut(s: bytes, sep: byte): Option<(bytes, bytes)>
  {
    if s == [] then None
    else if s[0] == sep then Some(([], s[1..]))
    else
      match Cut(s[1..], sep)
      case None => None
      case Some((a, b)) => Some(([s[0]] + a, b))
  }

  /** The cut is at the first separator, if there is one. */
  lemma {:induction false} CutExactly(s: bytes, sep: byte, a: bytes, b: bytes)
    ensures Cut(s, sep).None? <==> sep !in s
    ensures Cut(s, sep) == Some((a, b)) <==> s == a + [sep] + b && sep !in a
  {
    if s != [] {
      assert s == [s[0]] + s[1..];
      if s[0] == sep {
        assert s == [] + [sep] + s[1..];
        if a == [] && s == a + [sep] + b { assert s[1..] == b; }
        if a != [] && s == a + [sep] + b { assert a[0] == s[0]; }
      } else {
        CutExactly(s[1..], sep, if a == [] then a else a[1..], b);
        if a != [] {
          assert a == [a[0]] + a[1..];
          assert a + [sep] + b == [a[0]] + (a[1..] + [sep] + b);
        }
      }
    }
  }

  predicate KindChar(c: byte) { 'a' <= c <= 'z' || '0' <= c <= '9' || c == '-' }

  predicate IdChar(c: byte)
  {
    'A' <= c <= 'Z' || 'a' <= c <= 'z' || '0' <= c <= '9' || c == '.' || c == '_' || c == ':' || c == '-'
  }

  /** ^[a-z][a-z0-9-]{0,31}:[A-Za-z0-9._:-]{1,200}$ */
  predicate IsRunSubject(s: bytes)
  {
    var cut := Cut(s, ':');
    && cut.Some?
    && var (kind, id) := cut.value;
    && 1 <= |kind| <= 32 && 'a' <= kind[0] <= 'z' && (forall i :: 0 <= i < |kind| ==> KindChar(kind[i]))
    && 1 <= |id| <= 200 && (forall i :: 0 <= i < |id| ==> IdChar(id[i]))
  }

  predicate Valid(req: Request)
  {
    && IsSlug(req.workspace)
    && IsRunSubject(req.subject)
    && RoleRank(req.roleCeiling) > 0
    && 1 <= |req.owner| <= 512
  }

  /** The module a subject kind is reserved for, if any. */
  function ReservedFor(kind: bytes): Option<bytes>
  {
    if kind == API_WRITE then Some(API_MODULE) else None
  }

  // ---------------------------------------------------------------- the owner

  predicate NamesServiceAccount(owner: bytes) { SERVICE_ACCOUNT_PREFIX <= owner }

  function OwnerRole(s: Service, owner: bytes, workspace: bytes): Result<Role>
  {
    if NamesServiceAccount(owner) then ServiceAccountRole(s, owner[4..], workspace)
    else if s.users.None? then Refused(Unavailable)
    else
      match Visible(s.users.value, owner, workspace)
      case None => Refused(OwnerNoAccess)
      case Some(u) =>
        if s.now - u.lastSeenAt > s.maxOwnerAge then Refused(OwnerNoAccess)
        else
          var role := if workspace in u.roles then u.roles[workspace] else NO_ROLE;
          if RoleRank(role) == 0 then Refused(OwnerNoAccess) else Ok(role)
  }

  function ServiceAccountRole(s: Service, rest: bytes, workspace: bytes): Result<Role>
  {
    match Cut(rest, ':')
    case None => Refused(ServiceAccountNotFound)
    case Some((ws, name)) =>
      if ws != workspace then Refused(ServiceAccountNotFound)
      else if s.accounts.None? then Refused(Unavailable)
      else if (workspace, name) !in s.accounts.value then Refused(ServiceAccountNotFound)
      else if s.accounts.value[(workspace, name)].disabled then Refused(ServiceAccountDisabled)
      else Ok(s.accounts.value[(workspace, name)].role)
  }

  function MintToken(s: Service, moduleID: bytes, req: Request): Result<Token>
  {
    if !Valid(req) then Refused(InvalidRequest)
    else if !s.mayMint(moduleID) then Refused(NotEntitled)
    else
      var reserved := ReservedFor(Cut(req.subject, ':').value.0);
      if reserved.Some? && reserved.value != moduleID then Refused(NotEntitled)
      else
        match OwnerRole(s, req.owner, req.workspace)
        case Refused(r) => Refused(r)
        case Ok(ownerRole) =>
          var role := LesserRole(req.roleCeiling, ownerRole);
          if role == NO_ROLE then Refused(OwnerNoAccess)
          else Ok(Token([GroupEntry(req.workspace, role)], req.subject, moduleID, req.owner, role, s.now, s.now, s.now + s.ttl))
  }

  // ---------------------------------------------------------------- the role cap

  /** The lesser of two real roles, by name. */
  function Lesser(a: Role, b: Role): Role
  {
    if a == "viewer" || b == "viewer" then "viewer" else if a == "editor" || b == "editor" then "editor" else "owner"
  }

  /** The token's one groups entry is read back by the parser every module uses as exactly the
      requested workspace and the granted role: viewer if the ceiling or the owner's role is viewer,
      else editor if one of them is, and owner only if both are. */
  lemma TokenReadsBack(s: Service, moduleID: bytes, req: Request)
    requires MintToken(s, moduleID, req).Ok?
    ensures var token := MintToken(s, moduleID, req).value;
            var owner := OwnerRole(s, req.owner, req.workspace);
            && DeriveMemberships(token.groups) == [Membership(req.workspace, token.role)]
            && owner.Ok?
            && 0 < RoleRank(token.role) <= RoleRank(req.roleCeiling)
            && RoleRank(token.role) <= RoleRank(owner.value)
            && (token.role == req.roleCeiling || token.role == owner.value)
            && token.role == Lesser(req.roleCeiling, owner.value)
            && (token.role == "owner" <==> req.roleCeiling == "owner" && owner.value == "owner")
  {
    var token := MintToken(s, moduleID, req).value;
    var owner := OwnerRole(s, req.owner, req.workspace).value;
    LesserRoleNamed(req.roleCeiling, owner);
    RoleNames(token.role);
    var g := GroupEntry(req.workspace, token.role);
    GroupEntryReadBack(g, Membership(req.workspace, token.role));
    var groups: seq<bytes> := [g];
    assert groups[..0] == [];
    assert DeriveMemberships(groups) == DeriveMemberships([]) + [Membership(req.workspace, token.role)];
  }

  /** End to end for a person: after any serialised run of the recorder, a token minted for the
      person carries the lesser of the ceiling and of all roles that the person's last recorded token
      lists for the workspace, whatever the order or duplicates in its groups; and that token does list
      the workspace. */
  lemma RoleCapPerson(interval: int, events: seq<Event>, s: Service, moduleID: bytes, req: Request) returns (i: nat)
    requires interval > 0
    requires s.users == Some(Run(interval, events).users)
    requires MintToken(s, moduleID, req).Ok? && !NamesServiceAccount(req.owner)
    ensures LastRecorded(events, req.owner, i)
    ensures var role := MintToken(s, moduleID, req).value.role;
            && (exists g <- events[i].groups :: ParseGroup(g).Some? && ParseGroup(g).value.workspace == req.workspace)
            && (forall g <- events[i].groups :: ParseGroup(g).Some? && ParseGroup(g).value.workspace == req.workspace
                  ==> RoleRank(role) <= RoleRank(ParseGroup(g).value.role))
            && RoleRank(role) <= RoleRank(req.roleCeiling)
            && LeastListed(events[i].groups, req.workspace) != ""
            && role == Lesser(req.roleCeiling, LeastListed(events[i].groups, req.workspace))
  {
    TokenReadsBack(s, moduleID, req);
    i := RolesOfLastToken(interval, events, req.owner, req.workspace);
    assert req.workspace in Run(interval, events).users[req.owner].roles;
  }

  /** The bound on stale owners: when the clock does not run backwards, a person's token is minted only
      if the person's last recorded token is at most maxOwnerAge old. */
  lemma OwnerSeenRecently(interval: int, events: seq<Event>, s: Service, moduleID: bytes, req: Request) returns (i: nat)
    requires interval > 0 && ClockRuns(events)
    requires s.users == Some(Run(interval, events).users)
    requires MintToken(s, moduleID, req).Ok? && !NamesServiceAccount(req.owner)
    ensures LastRecorded(events, req.owner, i) && s.now - events[i].now <= s.maxOwnerAge
  {
    NeverLater(interval, events, req.owner);
    i := PlainHoldsLast(events, req.owner);
  }

  /** A request that every other check lets through. */
  predicate Admissible(s: Service, moduleID: bytes, req: Request)
  {
    && Valid(req) && s.mayMint(moduleID)
    && (ReservedFor(Cut(req.subject, ':').value.0).Some? ==> ReservedFor(Cut(req.subject, ':').value.0).value == moduleID)
  }

  /** The converse, up to the debounce interval: for an admissible request, a person whose last recorded
      token lists the workspace and is at most maxOwnerAge less the interval old gets a token. */
  lemma RecentOwnerMints(interval: int, events: seq<Event>, s: Service, moduleID: bytes, req: Request, i: nat)
    requires interval > 0 && Admissible(s, moduleID, req) && !NamesServiceAccount(req.owner)
    requires s.users == Some(Run(interval, events).users)
    requires LastRecorded(events, req.owner, i)
    requires exists g <- events[i].groups :: ParseGroup(g).Some? && ParseGroup(g).value.workspace == req.workspace
    requires s.now - events[i].now <= s.maxOwnerAge - interval
    ensures MintToken(s, moduleID, req).Ok?
  {
    var role := RecentOwnerHasRole(interval, events, s, req.owner, req.workspace, i);
    LesserRoleNamed(req.roleCeiling, role);
    RoleNames(role);
    RoleNames(req.roleCeiling);
  }

  lemma RecentOwnerHasRole(interval: int, events: seq<Event>, s: Service, owner: bytes, workspace: bytes, i: nat) returns (role: Role)
    requires interval > 0 && !NamesServiceAccount(owner)
    requires s.users == Some(Run(interval, events).users)
    requires LastRecorded(events, owner, i)
    requires exists g <- events[i].groups :: ParseGroup(g).Some? && ParseGroup(g).value.workspace == workspace
    requires s.now - events[i].now <= s.maxOwnerAge - interval
    ensures OwnerRole(s, owner, workspace) == Ok(role) && RoleRank(role) > 0
  {
    HeldFromLast(interval, events, owner, i);
    var g :| g in events[i].groups && ParseGroup(g).Some? && ParseGroup(g).value.workspace == workspace;
    ListedIsHeld(events[i].groups, g);
    var u := Run(interval, events).users[owner];
    OwnerRoleOf(s, s.users.value, owner, workspace, u);
    role := u.roles[workspace];
  }

  lemma OwnerRoleOf(s: Service, users: Users, owner: bytes, workspace: bytes, u: User)
    requires !NamesServiceAccount(owner) && s.users == Some(users) && owner in users && users[owner] == u
    requires workspace in u.workspaces && workspace in u.roles && RoleRank(u.roles[workspace]) > 0
    requires s.now - u.lastSeenAt <= s.maxOwnerAge
    ensures OwnerRole(s, owner, workspace) == Ok(u.roles[workspace])
  {
    assert Visible(users, owner, workspace) == Some(u);
  }

  /** A workspace that a groups entry names is recorded, with a real role. */
  lemma ListedIsHeld(groups: seq<bytes>, g: bytes)
    requires g in groups && ParseGroup(g).Some?
    ensures var ms, w := DeriveMemberships(groups), ParseGroup(g).value.workspace;
            w in WorkspacesOf(ms) && w in RolesOf(ms) && RoleRank(RolesOf(ms)[w]) > 0
  {
    var ms, m := DeriveMemberships(groups), ParseGroup(g).value;
    MembershipsOf(groups, m);
    DerivedGenuine(groups);
    RolesOfLeast(ms, m.workspace);
    SortStringsMembers(Distinct(ms));
    var k :| 0 <= k < |ms| && ms[k] == m;
    assert ms[k].workspace == m.workspace && m.workspace in Distinct(ms);
    var l :| 0 <= l < |ms| && ms[l] == Membership(m.workspace, RolesOf(ms)[m.workspace]);
  }

  /** End to end for a service account: the stored record is live, enabled, in the requested
      workspace, and the token carries the lesser of its role and the ceiling. */
  lemma RoleCapServiceAccount(s: Service, moduleID: bytes, req: Request) returns (name: bytes)
    requires MintToken(s, moduleID, req).Ok? && NamesServiceAccount(req.owner)
    ensures req.owner == SERVICE_ACCOUNT_PREFIX + req.workspace + ":" + name
    ensures s.accounts.Some? && (req.workspace, name) in s.accounts.value
    ensures var account := s.accounts.value[(req.workspace, name)];
            && !account.disabled
            && RoleRank(MintToken(s, moduleID, req).value.role) <= RoleRank(account.role)
            && RoleRank(MintToken(s, moduleID, req).value.role) <= RoleRank(req.roleCeiling)
            && (account.role == "owner" || account.role == "editor" || account.role == "viewer")
            && MintToken(s, moduleID, req).value.role == Lesser(req.roleCeiling, account.role)
  {
    TokenReadsBack(s, moduleID, req);
    RoleNames(OwnerRole(s, req.owner, req.workspace).value);
    var rest := req.owner[4..];
    name := Cut(rest, ':').value.1;
    CutExactly(rest, ':', req.workspace, name);
    assert req.owner == req.owner[..4] + rest;
  }

  // ---------------------------------------------------------------- what is asked and what is answered

  /** A run subject: a kind of one to 32 characters that begins with a letter, a colon, and an id of one
      to 200 characters, which may hold further colons. */
  predicate RunSubjectText(kind: bytes, id: bytes)
  {
    && 1 <= |kind| <= 32 && 'a' <= kind[0] <= 'z'
    && (forall c <- kind :: 'a' <= c <= 'z' || '0' <= c <= '9' || c == '-')
    && 1 <= |id| <= 200
    && (forall c <- id :: 'A' <= c <= 'Z' || 'a' <= c <= 'z' || '0' <= c <= '9' || c == '.' || c == '_' || c == ':' || c == '-')
  }

  lemma RunSubjectExactly(s: bytes)
    ensures IsRunSubject(s) <==> exists kind: bytes, id: bytes :: s == kind + [':'] + id && RunSubjectText(kind, id)
  {
    if kind: bytes, id: bytes :| s == kind + [':'] + id && RunSubjectText(kind, id) {
      CutExactly(s, ':', kind, id);
      assert (forall i :: 0 <= i < |kind| ==> kind[i] in kind) && forall i :: 0 <= i < |id| ==> id[i] in id;
    }
    if IsRunSubject(s) {
      var (kind, id) := Cut(s, ':').value;
      CutExactly(s, ':', kind, id);
      assert RunSubjectText(kind, id);
    }
  }

  /** What a request must look like. */
  ghost predicate WellFormed(req: Request)
  {
    && req.workspace != [] && (forall c <- req.workspace :: 'a' <= c <= 'z' || '0' <= c <= '9' || c == '-')
    && (exists kind: bytes, id: bytes :: req.subject == kind + [':'] + id && RunSubjectText(kind, id))
    && (req.roleCeiling == "owner" || req.roleCeiling == "editor" || req.roleCeiling == "viewer")
    && 1 <= |req.owner| <= 512
  }

  lemma ValidExactly(req: Request)
    ensures Valid(req) <==> WellFormed(req)
  {
    RunSubjectExactly(req.subject);
    RoleNames(req.roleCeiling);
    assert forall i :: 0 <= i < |req.workspace| ==> req.workspace[i] in req.workspace;
  }

  /** A person holds a role in a workspace: seen recently, with that workspace and a real role there. */
  predicate PersonHolds(s: Service, owner: bytes, workspace: bytes, role: Role)
  {
    && s.users.Some? && owner in s.users.value
    && var u := s.users.value[owner];
    && workspace in u.workspaces && workspace in u.roles && u.roles[workspace] == role
    && (role == "owner" || role == "editor" || role == "viewer")
    && s.now <= u.lastSeenAt + s.maxOwnerAge
  }

  /** A service account of the workspace holds a role: it exists, is enabled, and its role is real. */
  predicate AccountHolds(s: Service, name: bytes, workspace: bytes, role: Role)
  {
    && s.accounts.Some? && (workspace, name) in s.accounts.value
    && s.accounts.value[(workspace, name)] == Account(role, false)
    && (role == "owner" || role == "editor" || role == "viewer")
  }

  /** The owner holds the role: "svc:<workspace>:<name>" names a service account, all else a person. */
  ghost predicate OwnerHolds(s: Service, owner: bytes, workspace: bytes, role: Role)
  {
    if "svc:" <= owner then exists name: bytes :: owner == "svc:" + workspace + ":" + name && AccountHolds(s, name, workspace, role)
    else PersonHolds(s, owner, workspace, role)
  }

  lemma AccountCut(rest: bytes, workspace: bytes, name: bytes)
    requires IsSlug(workspace)
    ensures Cut(rest, ':') == Some((workspace, name)) <==> "svc:" + rest == "svc:" + workspace + ":" + name
  {
    CutExactly(rest, ':', workspace, name);
    SlugAvoids(workspace, ':');
    assert "svc:" + workspace + ":" + name == "svc:" + (workspace + [':'] + name);
    SameTail("svc:", rest, workspace + [':'] + name);
  }

  lemma SameTail(a: bytes, x: bytes, y: bytes)
    ensures a + x == a + y <==> x == y
  {
    assert (a + x)[|a|..] == x && (a + y)[|a|..] == y;
  }

  lemma OwnerRoleExactly(s: Service, owner: bytes, workspace: bytes, role: Role)
    requires IsSlug(workspace)
    ensures OwnerRole(s, owner, workspace) == Ok(role) && RoleRank(role) > 0 <==> OwnerHolds(s, owner, workspace, role)
  {
    RoleNames(role);
    if "svc:" <= owner {
      var rest := owner[4..];
      assert owner == "svc:" + rest;
      if OwnerRole(s, owner, workspace) == Ok(role) { AccountCut(rest, workspace, Cut(rest, ':').value.1); }
      if name: bytes :| owner == "svc:" + workspace + ":" + name && AccountHolds(s, name, workspace, role) {
        AccountCut(rest, workspace, name);
      }
    }
  }

  /** Exactly when a token is granted, and in which order the reasons for a refusal are tried: a request
      that is not well formed, a module that may not mint (at all, or subjects of the kind "apiwrite"
      unless it is "api"), and an owner that holds no role. */
  lemma GrantedExactly(s: Service, moduleID: bytes, req: Request)
    ensures var answer := MintToken(s, moduleID, req);
            var entitled := s.mayMint(moduleID) && ("apiwrite:" <= req.subject ==> moduleID == "api");
            && (answer == Refused(InvalidRequest) <==> !WellFormed(req))
            && (answer == Refused(NotEntitled) <==> WellFormed(req) && !entitled)
            && (answer.Ok? <==> WellFormed(req) && entitled && exists role :: OwnerHolds(s, req.owner, req.workspace, role))
  {
    ValidExactly(req);
    if Valid(req) {
      ReservedExactly(req.subject);
      var owner := OwnerRole(s, req.owner, req.workspace);
      if owner.Ok? {
        OwnerRoleExactly(s, req.owner, req.workspace, owner.value);
        LesserRoleNamed(req.roleCeiling, owner.value);
        RoleNames(owner.value);
      }
      if role :| OwnerHolds(s, req.owner, req.workspace, role) {
        OwnerRoleExactly(s, req.owner, req.workspace, role);
      }
    }
  }

  lemma ReservedExactly(subject: bytes)
    requires IsRunSubject(subject)
    ensures ReservedFor(Cut(subject, ':').value.0) == if "apiwrite:" <= subject then Some("api") else None
  {
    var (kind, id) := Cut(subject, ':').value;
    CutExactly(subject, ':', kind, id);
    if "apiwrite:" <= subject {
      var rest := subject[9..];
      assert subject == "apiwrite" + [':'] + rest;
      CutExactly(subject, ':', "apiwrite", rest);
    }
  }

  predicate IsDisabled(accounts: map<(bytes, bytes), Account>, workspace: bytes, name: bytes)
  {
    (workspace, name) in accounts && accounts[(workspace, name)].disabled
  }

  /** The reasons for refusing an owner: the store that is asked cannot answer; a service account that is
      not there under the workspace of the request, or is disabled; and anything else that leaves the
      owner without a role. */
  lemma OwnerRefusals(s: Service, owner: bytes, workspace: bytes)
    requires IsSlug(workspace)
    ensures var r := OwnerRole(s, owner, workspace);
            if "svc:" <= owner then
              && (r == Refused(Unavailable) <==> s.accounts.None? && exists name: bytes :: owner == "svc:" + workspace + ":" + name)
              && (r == Refused(ServiceAccountDisabled) <==>
                    s.accounts.Some? && exists name: bytes :: owner == "svc:" + workspace + ":" + name && IsDisabled(s.accounts.value, workspace, name))
              && (r.Refused? ==> r.refusal in {Unavailable, ServiceAccountDisabled, ServiceAccountNotFound})
            else
              && (r == Refused(Unavailable) <==> s.users.None?)
              && (r.Refused? ==> r.refusal in {Unavailable, OwnerNoAccess})
  {
    if "svc:" <= owner {
      var rest := owner[4..];
      assert owner == "svc:" + rest;
      if Cut(rest, ':').Some? && Cut(rest, ':').value.0 == workspace {
        var name := Cut(rest, ':').value.1;
        AccountCut(rest, workspace, name);
        assert owner == "svc:" + workspace + ":" + name;
      }
      forall name: bytes | owner == "svc:" + workspace + ":" + name ensures Cut(rest, ':') == Some((workspace, name)) {
        AccountCut(rest, workspace, name);
      }
    }
  }

  /** A token whose subject is of the reserved kind is only ever minted by the module "api". */
  lemma ReservedKind(s: Service, moduleID: bytes, req: Request)
    requires MintToken(s, moduleID, req).Ok? && "apiwrite:" <= MintToken(s, moduleID, req).value.subject
    ensures moduleID == "api"
  {
    GrantedExactly(s, moduleID, req);
  }

  /** What a granted token says. */
  lemma TokenSays(s: Service, moduleID: bytes, req: Request)
    requires MintToken(s, moduleID, req).Ok?
    ensures var token := MintToken(s, moduleID, req).value;
            && token.groups == ["/workspaces/" + req.workspace + "/" + token.role]
            && token.subject == req.subject && token.moduleID == moduleID && token.owner == req.owner
            && token.issuedAt == token.notBefore == s.now && token.expiresAt == s.now + s.ttl
            && exists held :: OwnerHolds(s, req.owner, req.workspace, held) && token.role == Lesser(req.roleCeiling, held)
  {
    TokenReadsBack(s, moduleID, req);
    var held := OwnerRole(s, req.owner, req.workspace).value;
    OwnerRoleExactly(s, req.owner, req.workspace, held);
  }
}
