/** The regular expressions that guard the event bus, the groups claim and the run subjects, and that the
    predicates of the model accept exactly their languages. */
module Grammars {
  import opened Text
  import Grants
  import Roles
  import Mint

  /** A character class repeated between `low` and `high` times, a literal, a sequence, a choice, and any
      number of repetitions. Every expression is anchored at both ends. */
  datatype Regex =
    | Chars(has: byte -> bool, low: nat, high: Option<nat>)
    | Literal(text: bytes)
    | Then(first: Regex, second: Regex)
    | Or(first: Regex, second: Regex)
    | Star(inner: Regex)

  ghost predicate Matches(r: Regex, s: bytes)
    decreases r, |s|
  {
    match r
    case Chars(has, low, high) => low <= |s| && (high.Some? ==> |s| <= high.value) && forall i :: 0 <= i < |s| ==> has(s[i])
    case Literal(text) => s == text
    case Then(a, b) => exists i :: 0 <= i <= |s| && Matches(a, s[..i]) && Matches(b, s[i..])
    case Or(a, b) => Matches(a, s) || Matches(b, s)
    case Star(a) => s == [] || exists i :: 0 < i <= |s| && Matches(a, s[..i]) && Matches(r, s[i..])
  }

  function One(has: byte -> bool): Regex { Chars(has, 1, Some(1)) }

  function Lower(): byte -> bool { c => 'a' <= c <= 'z' }

  function LowerDigit(): byte -> bool { c => 'a' <= c <= 'z' || '0' <= c <= '9' }

  function LowerDigitDash(): byte -> bool { c => 'a' <= c <= 'z' || '0' <= c <= '9' || c == '-' }

  function IdCharacter(): byte -> bool
  {
    c => 'A' <= c <= 'Z' || 'a' <= c <= 'z' || '0' <= c <= '9' || c == '.' || c == '_' || c == ':' || c == '-'
  }

  // ---------------------------------------------------------------- the expressions

  /** [a-z][a-z0-9]* */
  function Name(): Regex { Then(One(Lower()), Chars(LowerDigit(), 0, None)) }

  /** One or more of "." followed by tok. */
  function DottedBy(tok: Regex): Regex { Then(Then(Literal("."), tok), Star(Then(Literal("."), tok))) }

  /** ^[a-z][a-z0-9]*(\\.[a-z][a-z0-9]*)+$ */
  function EventTypePattern(): Regex { Then(Name(), DottedBy(Name())) }

  /** ^[a-z][a-z0-9]*(\\.([a-z][a-z0-9]*|\\*))+$ */
  function EventPattern(): Regex { Then(Name(), DottedBy(Or(Name(), Literal("*")))) }

  /** ^[a-z0-9-]+$ */
  function WorkspacePattern(): Regex { Chars(LowerDigitDash(), 1, None) }

  /** owner|editor|viewer */
  function RolePattern(): Regex { Or(Literal("owner"), Or(Literal("editor"), Literal("viewer"))) }

  /** ^/workspaces/([a-z0-9-]+)/(owner|editor|viewer)$ */
  function GroupPattern(): Regex
  {
    Then(Literal("/workspaces/"), Then(WorkspacePattern(), Then(Literal("/"), RolePattern())))
  }

  /** ^[a-z][a-z0-9-]{0,31}:[A-Za-z0-9._:-]{1,200}$ */
  function SubjectPattern(): Regex
  {
    Then(One(Lower()), Then(Chars(LowerDigitDash(), 0, Some(31)), Then(Literal(":"), Chars(IdCharacter(), 1, Some(200)))))
  }

  // ---------------------------------------------------------------- sequences

  lemma ThenExactly(a: Regex, b: Regex, s: bytes)
    ensures Matches(Then(a, b), s) <==> exists x: bytes, y: bytes :: s == x + y && Matches(a, x) && Matches(b, y)
  {
    if i :| 0 <= i <= |s| && Matches(a, s[..i]) && Matches(b, s[i..]) {
      assert s == s[..i] + s[i..];
    }
    if x: bytes, y: bytes :| s == x + y && Matches(a, x) && Matches(b, y) {
      assert s[..|x|] == x && s[|x|..] == y;
    }
  }

  lemma LiteralThen(text: bytes, b: Regex, s: bytes)
    ensures Matches(Then(Literal(text), b), s) <==> text <= s && Matches(b, s[|text|..])
  {
    ThenExactly(Literal(text), b, s);
    if text <= s { assert s == text + s[|text|..]; }
  }

  lemma OneThen(has: byte -> bool, b: Regex, s: bytes)
    ensures Matches(Then(One(has), b), s) <==> s != [] && has(s[0]) && Matches(b, s[1..])
  {
    if s != [] && has(s[0]) && Matches(b, s[1..]) { assert s[..1] == [s[0]] && Matches(One(has), s[..1]); }
    if i :| 0 <= i <= |s| && Matches(One(has), s[..i]) && Matches(b, s[i..]) { assert s[..i][0] == s[0]; }
  }

  // ---------------------------------------------------------------- dotted names

  lemma NameExactly(s: bytes)
    ensures Matches(Name(), s) <==> Grants.IsName(s)
  {
    OneThen(Lower(), Chars(LowerDigit(), 0, None), s);
    if s != [] { assert forall i :: 1 <= i < |s| ==> s[1..][i - 1] == s[i]; }
  }

  /** What tok matches holds no dot. */
  ghost predicate DotFree(tok: Regex) { forall t :: Matches(tok, t) ==> '.' !in t }

  function Dot(tok: Regex): Regex { Then(Literal("."), tok) }

  ghost predicate Pieces(tok: Regex, s: bytes) { forall t <- Split(s, '.') :: Matches(tok, t) }

  lemma FirstPiece(tok: Regex, t: bytes, rest: bytes)
    requires '.' !in t
    ensures Pieces(tok, t) <==> Matches(tok, t)
    ensures Pieces(tok, t + ['.'] + rest) <==> Matches(tok, t) && Pieces(tok, rest)
  {
    SplitClean(t, '.');
    SplitCons(t, '.', rest);
  }

  /** The end of the first piece of s, which begins with a dot. */
  function PieceEnd(s: bytes): (i: nat)
    requires s != []
    ensures 0 < i <= |s| && '.' !in s[1..i] && (i < |s| ==> s[i] == '.')
  {
    var i := IndexOf(s[1..], '.') + 1;
    assert s[1..i] == s[1..][..i - 1];
    i
  }

  lemma CutPiece(tok: Regex, s: bytes, i: nat)
    requires 0 < i <= |s| && s[0] == '.' && '.' !in s[1..i] && (i < |s| ==> s[i] == '.')
    ensures Pieces(tok, s[1..]) <==> Matches(tok, s[1..i]) && (i < |s| ==> Pieces(tok, s[i + 1..]))
  {
    FirstPiece(tok, s[1..i], if i < |s| then s[i + 1..] else []);
    if i < |s| { assert s[1..] == s[1..i] + ['.'] + s[i + 1..]; } else { assert s[1..] == s[1..i]; }
  }

  lemma DotMatches(tok: Regex, s: bytes, i: nat)
    requires 0 < i <= |s|
    ensures Matches(Dot(tok), s[..i]) <==> s[0] == '.' && Matches(tok, s[1..i])
  {
    LiteralThen(".", tok, s[..i]);
    assert s[..i][1..] == s[1..i];
  }

  /** Repeated dotted tokens: the text begins with a dot and every piece after it is a token. */
  lemma {:induction false} DotsExactly(tok: Regex, s: bytes)
    requires DotFree(tok) && s != []
    ensures Matches(Star(Dot(tok)), s) <==> s[0] == '.' && Pieces(tok, s[1..])
    decreases |s|, 1
  {
    if Matches(Star(Dot(tok)), s) {
      var i :| 0 < i <= |s| && Matches(Dot(tok), s[..i]) && Matches(Star(Dot(tok)), s[i..]);
      DotMatches(tok, s, i);
      RestDots(tok, s, i);
      CutPiece(tok, s, i);
    }
    if s[0] == '.' && Pieces(tok, s[1..]) {
      var i := PieceEnd(s);
      DotMatches(tok, s, i);
      RestDots(tok, s, i);
      CutPiece(tok, s, i);
    }
  }

  lemma {:induction false} RestDots(tok: Regex, s: bytes, i: nat)
    requires DotFree(tok) && 0 < i <= |s|
    ensures Matches(Star(Dot(tok)), s[i..]) <==> i == |s| || (s[i] == '.' && Pieces(tok, s[i + 1..]))
    decreases |s|, 0
  {
    if i < |s| {
      DotsExactly(tok, s[i..]);
      assert s[i..][1..] == s[i + 1..];
    }
  }

  lemma DottedByExactly(tok: Regex, s: bytes)
    ensures Matches(DottedBy(tok), s) <==> s != [] && Matches(Star(Dot(tok)), s)
  {
    if i :| 0 <= i <= |s| && Matches(Dot(tok), s[..i]) && Matches(Star(Dot(tok)), s[i..]) {
      LiteralThen(".", tok, s[..i]);
    }
  }

  /** A name followed by dotted tokens. */
  lemma NameThenDots(tok: Regex, s: bytes)
    requires DotFree(tok)
    ensures Matches(Then(Name(), DottedBy(tok)), s) <==>
            var ts := Split(s, '.');
            |ts| >= 2 && Grants.IsName(ts[0]) && forall i :: 1 <= i < |ts| ==> Matches(tok, ts[i])
  {
    ThenExactly(Name(), DottedBy(tok), s);
    if x: bytes, y: bytes :| s == x + y && Matches(Name(), x) && Matches(DottedBy(tok), y) {
      NameExactly(x);
      DottedByExactly(tok, y);
      DotsExactly(tok, y);
      assert s == x + ['.'] + y[1..];
      SplitCons(x, '.', y[1..]);
    }
    var ts := Split(s, '.');
    if |ts| >= 2 && Grants.IsName(ts[0]) && forall i :: 1 <= i < |ts| ==> Matches(tok, ts[i]) {
      var y := AfterFirst(s);
      NameExactly(ts[0]);
      DottedByExactly(tok, y);
      DotsExactly(tok, y);
    }
  }

  /** What follows the first piece, from its dot on. */
  lemma AfterFirst(s: bytes) returns (y: bytes)
    requires |Split(s, '.')| >= 2
    ensures s == Split(s, '.')[0] + y && y != [] && y[0] == '.' && Split(y[1..], '.') == Split(s, '.')[1..]
  {
    if '.' !in s { SplitClean(s, '.'); }
    CutAt(s, '.');
    var i := IndexOf(s, '.');
    SplitCons(s[..i], '.', s[i + 1..]);
    y := s[i..];
    assert y[1..] == s[i + 1..];
  }

  lemma NameDotFree()
    ensures DotFree(Name()) && DotFree(Or(Name(), Literal("*")))
  {
    forall t ensures Matches(Name(), t) ==> '.' !in t { NameExactly(t); }
  }

  // ---------------------------------------------------------------- the predicates of the model

  /** A well-formed event pattern is what the pattern's expression matches. */
  lemma PatternExactly(s: bytes)
    ensures Grants.IsPattern(s) <==> Matches(EventPattern(), s)
  {
    NameDotFree();
    NameThenDots(Or(Name(), Literal("*")), s);
    forall t ensures Matches(Name(), t) <==> Grants.IsName(t) { NameExactly(t); }
  }

  lemma EventTypeExactly(s: bytes)
    ensures Grants.IsEventType(s) <==> Matches(EventTypePattern(), s)
  {
    NameDotFree();
    NameThenDots(Name(), s);
    forall t ensures Matches(Name(), t) <==> Grants.IsName(t) { NameExactly(t); }
  }

  lemma WorkspaceExactly(s: bytes)
    ensures Grants.IsWorkspace(s) <==> Matches(WorkspacePattern(), s)
    ensures Roles.IsSlug(s) <==> Matches(WorkspacePattern(), s)
  {
  }

  lemma RoleExactly(r: bytes)
    ensures Matches(RolePattern(), r) <==> r == "owner" || r == "editor" || r == "viewer"
  {
    assert Matches(Or(Literal("editor"), Literal("viewer")), r) <==> r == "editor" || r == "viewer";
  }

  lemma EntryTail(rest: bytes)
    ensures Matches(Then(Literal("/"), RolePattern()), rest) <==>
            exists r: Roles.Role :: rest == "/" + r && (r == "owner" || r == "editor" || r == "viewer")
  {
    LiteralThen("/", RolePattern(), rest);
    if "/" <= rest {
      assert rest == "/" + rest[1..];
      RoleExactly(rest[1..]);
    }
    if r: Roles.Role :| rest == "/" + r && (r == "owner" || r == "editor" || r == "viewer") { assert rest[1..] == r; }
  }

  ghost predicate EntryRest(rest: bytes)
  {
    exists m: Roles.Membership :: Roles.IsSlug(m.workspace) && Roles.RoleRank(m.role) > 0 && rest == m.workspace + ("/" + m.role)
  }

  lemma RestExactly(rest: bytes)
    ensures EntryRest(rest) <==> Matches(Then(WorkspacePattern(), Then(Literal("/"), RolePattern())), rest)
  {
    var tail := Then(Literal("/"), RolePattern());
    ThenExactly(WorkspacePattern(), tail, rest);
    if x: bytes, y: bytes :| rest == x + y && Matches(WorkspacePattern(), x) && Matches(tail, y) {
      EntryTail(y);
      WorkspaceExactly(x);
      var r: Roles.Role :| y == "/" + r && (r == "owner" || r == "editor" || r == "viewer");
      Roles.RoleNames(r);
      assert rest == Roles.Membership(x, r).workspace + ("/" + r);
    }
    if m: Roles.Membership :| Roles.IsSlug(m.workspace) && Roles.RoleRank(m.role) > 0 && rest == m.workspace + ("/" + m.role) {
      Roles.RoleNames(m.role);
      WorkspaceExactly(m.workspace);
      EntryTail("/" + m.role);
    }
  }

  lemma GroupRest(rest: bytes)
    ensures Roles.ParseGroup("/workspaces/" + rest).Some? <==> EntryRest(rest)
  {
    var s := "/workspaces/" + rest;
    if m: Roles.Membership :| Roles.IsSlug(m.workspace) && Roles.RoleRank(m.role) > 0 && rest == m.workspace + ("/" + m.role) {
      assert s == Roles.GroupEntry(m.workspace, m.role);
      Roles.EntryReadBack(s, m);
    }
    if Roles.ParseGroup(s).Some? {
      var m := Roles.ParseGroup(s).value;
      Roles.EntryReadBack(s, m);
      var e := m.workspace + ("/" + m.role);
      assert s == "/workspaces/" + e;
      assert rest == s[12..] == e;
    }
  }

  /** A groups entry is read exactly when the expression matches it. */
  lemma GroupExactly(s: bytes)
    ensures Roles.ParseGroup(s).Some? <==> Matches(GroupPattern(), s)
  {
    LiteralThen("/workspaces/", Then(WorkspacePattern(), Then(Literal("/"), RolePattern())), s);
    if "/workspaces/" <= s {
      var rest := s[12..];
      assert s == "/workspaces/" + rest;
      RestExactly(rest);
      GroupRest(rest);
    }
  }

  lemma KindAndId(s: bytes, kind: bytes, id: bytes)
    requires s == kind + [':'] + id && Mint.RunSubjectText(kind, id)
    ensures Matches(SubjectPattern(), s)
  {
    var ids := Chars(IdCharacter(), 1, Some(200));
    var kinds := Chars(LowerDigitDash(), 0, Some(31));
    assert forall i :: 0 <= i < |kind| ==> kind[i] in kind;
    assert forall i :: 0 <= i < |id| ==> id[i] in id;
    assert Matches(kinds, kind[1..]) && Matches(ids, id);
    LiteralThen(":", ids, [':'] + id);
    assert ([':'] + id)[1..] == id;
    assert s[1..] == kind[1..] + ([':'] + id);
    ThenExactly(kinds, Then(Literal(":"), ids), s[1..]);
    OneThen(Lower(), Then(kinds, Then(Literal(":"), ids)), s);
  }

  lemma SubjectTail(rest: bytes) returns (x: bytes, id: bytes)
    requires Matches(Then(Chars(LowerDigitDash(), 0, Some(31)), Then(Literal(":"), Chars(IdCharacter(), 1, Some(200)))), rest)
    ensures rest == x + ([':'] + id)
    ensures Matches(Chars(LowerDigitDash(), 0, Some(31)), x) && Matches(Chars(IdCharacter(), 1, Some(200)), id)
  {
    var ids := Chars(IdCharacter(), 1, Some(200));
    ThenExactly(Chars(LowerDigitDash(), 0, Some(31)), Then(Literal(":"), ids), rest);
    var y: bytes;
    x, y :| rest == x + y && Matches(Chars(LowerDigitDash(), 0, Some(31)), x) && Matches(Then(Literal(":"), ids), y);
    LiteralThen(":", ids, y);
    id := y[1..];
    assert y == [':'] + id;
  }

  lemma SubjectSplits(s: bytes) returns (kind: bytes, id: bytes)
    requires Matches(SubjectPattern(), s)
    ensures s == kind + [':'] + id && Mint.RunSubjectText(kind, id)
  {
    OneThen(Lower(), Then(Chars(LowerDigitDash(), 0, Some(31)), Then(Literal(":"), Chars(IdCharacter(), 1, Some(200)))), s);
    var x;
    x, id := SubjectTail(s[1..]);
    kind := [s[0]] + x;
    assert s == [s[0]] + s[1..] && x == kind[1..];
  }

  /** A run subject is what its expression matches. */
  lemma SubjectExactly(s: bytes)
    ensures Mint.IsRunSubject(s) <==> Matches(SubjectPattern(), s)
  {
    Mint.RunSubjectExactly(s);
    if Mint.IsRunSubject(s) {
      var kind: bytes, id: bytes :| s == kind + [':'] + id && Mint.RunSubjectText(kind, id);
      KindAndId(s, kind, id);
    }
    if Matches(SubjectPattern(), s) {
      var kind, id := SubjectSplits(s);
    }
  }
}
