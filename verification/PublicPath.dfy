/** The path a public route forwards, internal/gateway/proxy.go: decoded once, checked, cleaned, and
    matched against the module's declared prefixes. */
module PublicPath {
  import opened Text
  import Urls

  // ---------------------------------------------------------------- path.Clean

  /** The elements left after dropping empty and "." ones and resolving ".."; a leading ".." stays
      only in a path that is not rooted. */
  function Resolve(segs: seq<bytes>, kept: seq<bytes>, rooted: bool): seq<bytes>
    decreases |segs|
  {
    if segs == [] then kept
    else if segs[0] == "" || segs[0] == "." then Resolve(segs[1..], kept, rooted)
    else if segs[0] == ".." then
      if kept != [] && kept[|kept| - 1] != ".." then Resolve(segs[1..], kept[..|kept| - 1], rooted)
      else if rooted then Resolve(segs[1..], kept, rooted)
      else Resolve(segs[1..], kept + [".."], rooted)
    else Resolve(segs[1..], kept + [segs[0]], rooted)
  }

  /** Go's path.Clean. */
  function Clean(p: bytes): bytes
  {
    var rooted := p != [] && p[0] == '/';
    var body := Join(Resolve(Split(p, '/'), [], rooted), '/');
    if rooted then ['/'] + body else if body == [] then "." else body
  }

  // ---------------------------------------------------------------- the gateway's functions

  predicate EndsInSlash(p: bytes) { p != [] && p[|p| - 1] == '/' }

  predicate IsDots(seg: bytes) { seg == "." || seg == ".." }

  ghost predicate Safe(p: bytes)
  {
    '\\' !in p && '\0' !in p && forall i :: 0 <= i < |Split(p, '/')| ==> !IsDots(Split(p, '/')[i])
  }

  method PublicPathIsSafe(p: bytes) returns (safe: bool)
    ensures safe == Safe(p)
  {
    if '\\' in p || '\0' in p { return false; }
    var segs := Split(p, '/');
    for i := 0 to |segs|
      invariant forall j :: 0 <= j < i ==> !IsDots(segs[j])
    {
      if segs[i] == "." || segs[i] == ".." { return false; }
    }
    return true;
  }

  function CleanPublicPath(p: bytes): bytes
  {
    var cleaned := Clean(p);
    if EndsInSlash(p) && !EndsInSlash(cleaned) then cleaned + ['/'] else cleaned
  }

  /** A module's declared prefixes; None when it is unknown or declares no public routes. */
  type Declared = Option<seq<bytes>>

  ghost predicate Matches(declared: Declared, path: bytes)
  {
    declared.Some? && exists i :: 0 <= i < |declared.value| && declared.value[i] <= path
  }

  method MatchesPublicRoute(declared: Declared, path: bytes) returns (matches: bool)
    ensures matches == Matches(declared, path)
  {
    if declared.None? { return false; }
    for i := 0 to |declared.value|
      invariant forall j :: 0 <= j < i ==> !(declared.value[j] <= path)
    {
      if declared.value[i] <= path { return true; }
    }
    return false;
  }

  /** The path handed to the module; None is the 404 answer. */
  ghost function Forwarded(remainder: bytes, declared: Declared): Option<bytes>
  {
    match Urls.Unescape(remainder, Urls.PathSegment)
    case None => None
    case Some(decoded) =>
      if Safe(decoded) && Matches(declared, CleanPublicPath(decoded)) then Some(CleanPublicPath(decoded)) else None
  }

  method PublicForward(remainder: bytes, declared: Declared) returns (path: Option<bytes>)
    ensures path == Forwarded(remainder, declared)
  {
    var decoded := Urls.Unescape(remainder, Urls.PathSegment);
    if decoded.None? { return None; }
    var safe := PublicPathIsSafe(decoded.value);
    if !safe { return None; }
    var forwardPath := CleanPublicPath(decoded.value);
    var matches := MatchesPublicRoute(declared, forwardPath);
    return if matches then Some(forwardPath) else None;
  }

  // ---------------------------------------------------------------- what cleaning leaves

  function NonEmpty(segs: seq<bytes>): (r: seq<bytes>)
    ensures forall i :: 0 <= i < |r| ==> r[i] != "" && r[i] in segs
  {
    if segs == [] then [] else (if segs[0] == "" then [] else [segs[0]]) + NonEmpty(segs[1..])
  }

  lemma {:induction false} ResolveSafe(segs: seq<bytes>, kept: seq<bytes>, rooted: bool)
    requires forall i :: 0 <= i < |segs| ==> !IsDots(segs[i])
    ensures Resolve(segs, kept, rooted) == kept + NonEmpty(segs)
    decreases |segs|
  {
    if segs == [] {
      assert kept + [] == kept;
    } else if segs[0] == "" {
      ResolveSafe(segs[1..], kept, rooted);
    } else {
      assert !IsDots(segs[0]);
      ResolveSafe(segs[1..], kept + [segs[0]], rooted);
      Assoc(kept, [segs[0]], NonEmpty(segs[1..]));
    }
  }

  /** A slash, the elements with a slash between them, and a slash at the end if asked for. */
  function Path(segs: seq<bytes>, trailing: bool): bytes
  {
    ['/'] + Join(segs, '/') + if segs != [] && trailing then ['/'] else []
  }

  predicate Elements(segs: seq<bytes>)
  {
    forall i :: 0 <= i < |segs| ==> segs[i] != "" && '/' !in segs[i]
  }

  lemma {:induction false} JoinEndsInSlash(segs: seq<bytes>)
    requires Elements(segs)
    ensures !EndsInSlash(Join(segs, '/')) && (segs != [] ==> Join(segs, '/') != [])
  {
    if |segs| == 1 {
      assert segs[0][|segs[0]| - 1] in segs[0];
    } else if |segs| > 1 {
      JoinEndsInSlash(segs[1..]);
    }
  }

  lemma SegmentsOf(p: bytes)
    ensures Elements(NonEmpty(Split(p, '/')))
  {
    JoinSplit(p, '/');
  }

  /** A safe rooted path cleans to its own non-empty segments, with its own trailing slash. */
  lemma CleanedIs(p: bytes)
    requires Safe(p) && p != [] && p[0] == '/'
    ensures CleanPublicPath(p) == Path(NonEmpty(Split(p, '/')), EndsInSlash(p))
  {
    var segs := NonEmpty(Split(p, '/'));
    CleanRooted(p);
    SegmentsOf(p);
    SlashAndJoin(segs);
    assert Clean(p) + [] == Clean(p);
  }

  lemma CleanRooted(p: bytes)
    requires Safe(p) && p != [] && p[0] == '/'
    ensures Clean(p) == ['/'] + Join(NonEmpty(Split(p, '/')), '/')
  {
    var segs := NonEmpty(Split(p, '/'));
    ResolveSafe(Split(p, '/'), [], true);
    assert [] + segs == segs;
  }

  lemma SlashAndJoin(segs: seq<bytes>)
    requires Elements(segs)
    ensures EndsInSlash(['/'] + Join(segs, '/')) <==> segs == []
  {
    JoinEndsInSlash(segs);
  }

  /** Reading a path back: an empty element, the elements, and an empty one for a final slash. */
  lemma PathSegments(segs: seq<bytes>, trailing: bool)
    requires Elements(segs)
    ensures Split(Path(segs, trailing), '/') == [""] + (if segs == [] then [""] else segs) + if segs != [] && trailing then [""] else []
  {
    var whole := [""] + (if segs == [] then [""] else segs) + if segs != [] && trailing then [""] else [];
    SplitJoin(whole, '/');
    if segs == [] {
      assert Join(whole, '/') == Path(segs, trailing);
    } else {
      var rest := segs + if trailing then [""] else [];
      assert whole == [""] + rest && whole[1..] == rest;
      JoinTrailing(segs);
      assert rest == if trailing then segs + [""] else segs;
      assert Join(whole, '/') == [] + ['/'] + Join(rest, '/');
      assert Join(whole, '/') == Path(segs, trailing);
    }
  }

  lemma {:induction false} JoinTrailing(segs: seq<bytes>)
    requires segs != []
    ensures Join(segs + [""], '/') == Join(segs, '/') + ['/']
  {
    var all := segs + [""];
    assert all[1..] == segs[1..] + [""];
    if |segs| == 1 {
      assert all[1..] == [""];
      assert Join(all[1..], '/') == [];
    } else {
      JoinTrailing(segs[1..]);
    }
  }

  lemma {:induction false} NonEmptyAppend(a: seq<bytes>, b: seq<bytes>)
    ensures NonEmpty(a + b) == NonEmpty(a) + NonEmpty(b)
  {
    if a == [] {
      assert a + b == b;
    } else {
      assert (a + b)[1..] == a[1..] + b;
      NonEmptyAppend(a[1..], b);
    }
  }

  lemma {:induction false} NonEmptyKeeps(segs: seq<bytes>)
    requires Elements(segs)
    ensures NonEmpty(segs) == segs
  {
    if segs != [] {
      NonEmptyKeeps(segs[1..]);
      assert [segs[0]] + segs[1..] == segs;
    }
  }

  lemma PathNonEmpty(segs: seq<bytes>, trailing: bool)
    requires Elements(segs)
    ensures NonEmpty(Split(Path(segs, trailing), '/')) == segs
  {
    var middle := if segs == [] then [""] else segs;
    var tail := if segs != [] && trailing then [""] else [];
    PathSegments(segs, trailing);
    NonEmptyKeeps(segs);
    BlanksDropped(middle, tail);
    if segs == [] { BlankDropped(); }
  }

  lemma BlankDropped()
    ensures NonEmpty([""]) == []
  {
    assert [""][1..] == [];
  }

  lemma BlanksDropped(middle: seq<bytes>, tail: seq<bytes>)
    requires tail == [] || tail == [""]
    ensures NonEmpty([""] + middle + tail) == NonEmpty(middle)
  {
    NonEmptyAppend([""] + middle, tail);
    NonEmptyAppend([""], middle);
    BlankDropped();
    assert [] + NonEmpty(middle) + [] == NonEmpty(middle);
  }

  lemma PathTrailing(segs: seq<bytes>, trailing: bool)
    requires Elements(segs)
    ensures EndsInSlash(Path(segs, trailing)) <==> segs == [] || trailing
  {
    SlashAndJoin(segs);
    assert ['/'] + Join(segs, '/') + [] == ['/'] + Join(segs, '/');
  }

  // ---------------------------------------------------------------- prefixes, segment by segment

  /** All elements but the last, which is what a final slash leaves behind it. */
  function Front(d: bytes): seq<bytes>
  {
    Split(d, '/')[..|Split(d, '/')| - 1]
  }

  lemma FrontCons(a: bytes, rest: bytes)
    requires '/' !in a
    ensures Front(a + ['/'] + rest) == [a] + Front(rest)
  {
    SplitCons(a, '/', rest);
  }

  lemma FirstSegments(a: bytes, rest: bytes, b: bytes, more: bytes)
    requires '/' !in a && '/' !in b
    ensures a + ['/'] + rest <= b + ['/'] + more <==> a == b && rest <= more
  {
    var d, s := a + ['/'] + rest, b + ['/'] + more;
    if d <= s {
      var tail := s[|d|..];
      assert s == a + ['/'] + (rest + tail);
      IndexOfFirst(a, '/', rest + tail);
      IndexOfFirst(b, '/', more);
      assert a == s[..|a|] == b;
      assert more == s[|a| + 1..] == rest + tail;
    }
  }

  lemma PrefixMembers(d: bytes, s: bytes)
    ensures d <= s ==> forall c <- d :: c in s
  {
    if d <= s { assert d == s[..|d|]; }
  }

  /** A prefix that ends in a slash is a prefix element by element, and something follows it. */
  lemma {:induction false} PrefixBySegments(d: bytes, s: bytes)
    requires d == [] || EndsInSlash(d)
    ensures d <= s <==> Front(d) < Split(s, '/')
    decreases |d|
  {
    if d == [] {
      assert Front(d) == [];
    } else {
      assert d[|d| - 1] in d;
      CutAt(d, '/');
      var a, rest := d[..IndexOf(d, '/')], d[IndexOf(d, '/') + 1..];
      assert rest != [] ==> rest[|rest| - 1] == d[|d| - 1];
      FrontCons(a, rest);
      if '/' in s {
        CutAt(s, '/');
        var b, more := s[..IndexOf(s, '/')], s[IndexOf(s, '/') + 1..];
        SplitCons(b, '/', more);
        PrefixBySegments(rest, more);
        FirstSegments(a, rest, b, more);
        ConsPrefix(a, Front(rest), b, Split(more, '/'));
      } else {
        SplitClean(s, '/');
        PrefixMembers(d, s);
      }
    }
  }

  lemma ConsPrefix(a: bytes, x: seq<bytes>, b: bytes, y: seq<bytes>)
    ensures [a] + x < [b] + y <==> a == b && x < y
  {
    if [a] + x < [b] + y {
      assert a == ([a] + x)[0] == ([b] + y)[0];
      assert x == ([a] + x)[1..] && y == ([b] + y)[1..];
      assert ([b] + y)[..1 + |x|] == [a] + x;
    }
  }

  // ---------------------------------------------------------------- confinement

  /** The grammar of a declared prefix: it starts and ends with a slash. */
  predicate WellDeclared(declared: Declared)
  {
    declared.Some? ==> forall i :: 0 <= i < |declared.value| ==>
      var d := declared.value[i]; EndsInSlash(d) && d[0] == '/'
  }

  /** The path lies under a prefix element by element. */
  ghost predicate Under(declared: Declared, path: bytes)
  {
    declared.Some? && exists i :: 0 <= i < |declared.value| && Front(declared.value[i]) < Split(path, '/')
  }

  lemma MatchesIsUnder(declared: Declared, path: bytes)
    requires WellDeclared(declared)
    ensures Matches(declared, path) <==> Under(declared, path)
  {
    if declared.Some? {
      forall i | 0 <= i < |declared.value| ensures declared.value[i] <= path <==> Front(declared.value[i]) < Split(path, '/') {
        PrefixBySegments(declared.value[i], path);
      }
    }
  }

  lemma CleanHead(p: bytes)
    requires p == [] || p[0] != '/'
    requires Safe(p)
    ensures CleanPublicPath(p) == [] || CleanPublicPath(p)[0] != '/'
  {
    var segs := NonEmpty(Split(p, '/'));
    ResolveSafe(Split(p, '/'), [], false);
    assert [] + segs == segs;
    SegmentsOf(p);
    if segs != [] { JoinEndsInSlash(segs); JoinHead(segs); }
    else { OnlySlashes(p); }
  }

  lemma JoinHead(segs: seq<bytes>)
    requires segs != [] && Elements(segs)
    ensures Join(segs, '/') != [] && Join(segs, '/')[0] == segs[0][0] != '/'
  {
    assert segs[0][0] in segs[0];
  }

  /** Without elements a path is slashes only. */
  lemma {:induction false} OnlySlashes(p: bytes)
    requires NonEmpty(Split(p, '/')) == []
    ensures forall i :: 0 <= i < |p| ==> p[i] == '/'
  {
    if p != [] {
      var r := Split(p[1..], '/');
      assert ([[]] + r)[1..] == r;
      OnlySlashes(p[1..]);
    }
  }

  lemma {:induction false} SplitMembers(p: bytes)
    ensures forall i, c :: 0 <= i < |Split(p, '/')| && c in Split(p, '/')[i] ==> c in p
  {
    if p != [] {
      SplitMembers(p[1..]);
      assert p == [p[0]] + p[1..];
    }
  }

  lemma {:induction false} JoinMembers(segs: seq<bytes>, p: bytes)
    requires '/' in p && forall i, c :: 0 <= i < |segs| && c in segs[i] ==> c in p
    ensures forall c <- Join(segs, '/') :: c in p
  {
    if |segs| == 1 {
      assert forall c <- segs[0] :: c in p;
    } else if |segs| > 1 {
      assert forall c <- segs[0] :: c in p;
      JoinMembers(segs[1..], p);
    }
  }

  lemma PathMembers(p: bytes, trailing: bool)
    requires '/' in p
    ensures forall c <- Path(NonEmpty(Split(p, '/')), trailing) :: c in p
  {
    var segs := NonEmpty(Split(p, '/'));
    SplitMembers(p);
    forall i, c | 0 <= i < |segs| && c in segs[i] ensures c in p {
      assert segs[i] in Split(p, '/');
    }
    JoinMembers(segs, p);
  }

  lemma PathDots(segs: seq<bytes>, trailing: bool)
    requires Elements(segs) && forall i :: 0 <= i < |segs| ==> !IsDots(segs[i])
    ensures var f := Path(segs, trailing); forall i :: 0 <= i < |Split(f, '/')| ==> !IsDots(Split(f, '/')[i])
  {
    PathSegments(segs, trailing);
  }

  lemma PathSafe(p: bytes, trailing: bool)
    requires Safe(p) && '/' in p
    ensures Safe(Path(NonEmpty(Split(p, '/')), trailing))
  {
    var segs := NonEmpty(Split(p, '/'));
    SegmentsOf(p);
    PathMembers(p, trailing);
    forall i | 0 <= i < |segs| ensures !IsDots(segs[i]) {
      assert segs[i] in Split(p, '/');
    }
    PathDots(segs, trailing);
  }

  /** Whatever the encoded remainder and the declared prefixes: a forwarded path has exactly the
      decoded input's non-empty elements, in order; no ".", "..", or empty element in between; the
      input's trailing slash; it lies under a declared prefix element by element; and cleaning it
      again changes nothing. */
  lemma Confinement(remainder: bytes, declared: Declared)
    requires WellDeclared(declared) && Forwarded(remainder, declared).Some?
    ensures var p := Urls.Unescape(remainder, Urls.PathSegment);
            var f := Forwarded(remainder, declared).value;
            && p.Some? && p.value != [] && p.value[0] == '/'
            && '\\' !in f && '\0' !in f && (forall i :: 0 <= i < |Split(f, '/')| ==> Split(f, '/')[i] != "." && Split(f, '/')[i] != "..")
            && f == Path(NonEmpty(Split(p.value, '/')), EndsInSlash(p.value))
            && NonEmpty(Split(f, '/')) == NonEmpty(Split(p.value, '/'))
            && (forall i :: 0 < i < |Split(f, '/')| - 1 ==> Split(f, '/')[i] != "")
            && EndsInSlash(f) == EndsInSlash(p.value)
            && Under(declared, f)
            && CleanPublicPath(f) == f
  {
    var p := Urls.Unescape(remainder, Urls.PathSegment).value;
    var f := CleanPublicPath(p);
    MatchesIsUnder(declared, f);
    if p == [] || p[0] != '/' { CleanHead(p); }
    CleanedAgain(p);
  }

  lemma CleanedAgain(p: bytes)
    requires Safe(p) && p != [] && p[0] == '/'
    ensures var f := CleanPublicPath(p);
            && Safe(f) && CleanPublicPath(f) == f
            && f == Path(NonEmpty(Split(p, '/')), EndsInSlash(p))
            && NonEmpty(Split(f, '/')) == NonEmpty(Split(p, '/'))
            && (forall i :: 0 < i < |Split(f, '/')| - 1 ==> Split(f, '/')[i] != "")
            && EndsInSlash(f) == EndsInSlash(p)
  {
    var segs := NonEmpty(Split(p, '/'));
    var f := CleanPublicPath(p);
    CleanedIs(p);
    SegmentsOf(p);
    PathSafe(p, EndsInSlash(p));
    PathSegments(segs, EndsInSlash(p));
    PathNonEmpty(segs, EndsInSlash(p));
    PathTrailing(segs, EndsInSlash(p));
    if segs == [] { OnlySlashes(p); }
    CleanedIs(f);
  }

  /** Exactly which requests are forwarded: the remainder decodes, to a safe rooted path, whose
      elements, with its own trailing slash, lie under a declared prefix. */
  lemma ForwardedExactly(remainder: bytes, declared: Declared)
    requires WellDeclared(declared)
    ensures var p := Urls.Unescape(remainder, Urls.PathSegment);
            Forwarded(remainder, declared).Some? <==>
              && p.Some? && p.value != [] && p.value[0] == '/' && '\\' !in p.value && '\0' !in p.value
              && (forall i :: 0 <= i < |Split(p.value, '/')| ==> Split(p.value, '/')[i] != "." && Split(p.value, '/')[i] != "..")
              && Under(declared, Path(NonEmpty(Split(p.value, '/')), EndsInSlash(p.value)))
  {
    var p := Urls.Unescape(remainder, Urls.PathSegment);
    if p.Some? && Safe(p.value) {
      MatchesIsUnder(declared, CleanPublicPath(p.value));
      if p.value == [] || p.value[0] != '/' {
        CleanHead(p.value);
      } else {
        CleanedIs(p.value);
      }
    }
  }
}
