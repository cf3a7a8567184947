/** Filling a chart's values with the platform's identity settings, internal/lifecycle/identity.go:
    nested maps updated in place, under Go's arbitrary map iteration order. */
module Identity {
  import opened Text
  import opened Sorting

  // ---------------------------------------------------------------- trees, seen as paths

  type Path = seq<bytes>

  /** A value that is not a map: a string, or anything else (number, list, null) as given. */
  datatype Scalar = Str(text: bytes) | Other(json: bytes)

  datatype Entry = Branch | Leaf(value: Scalar)

  /** A nested map, as what sits at each path; the root is at the empty path. */
  type Tree = map<Path, Entry>

  const EMPTY: Tree := map[[] := Branch]

  /** The path of key k of the map at q. */
  function Down(q: Path, k: bytes): Path { q + [k] }

  lemma DownInjective(p: Path, seg: bytes)
    ensures forall q, k :: Down(q, k) == Down(p, seg) ==> q == p && k == seg
    ensures Down(p, seg) != [] && forall k :: Down(Down(p, seg), k) != p
  {
    forall q, k | Down(q, k) == Down(p, seg) ensures q == p && k == seg {
      assert Down(q, k)[..|q|] == q && Down(p, seg)[..|p|] == p;
      assert Down(q, k)[|q|] == k;
    }
  }

  ghost predicate WellFormed(t: Tree)
  {
    && [] in t && t[[]] == Branch
    && (forall q: Path, k: bytes :: Down(q, k) in t ==> q in t && t[q] == Branch)
  }

  lemma {:induction false} AncestorsAreBranches(t: Tree, p: Path, i: nat)
    requires WellFormed(t) && p in t && i < |p|
    ensures p[..i] in t && t[p[..i]] == Branch
    decreases |p|
  {
    var parent := p[..|p| - 1];
    assert p == Down(parent, p[|p| - 1]);
    if i < |p| - 1 {
      AncestorsAreBranches(t, parent, i);
      assert parent[..i] == p[..i];
    }
  }

  /** hasLeaf: something at the path already, or something that is not a map on the way. */
  ghost predicate HasLeaf(t: Tree, segs: Path)
  {
    segs in t || exists i :: 0 < i < |segs| && segs[..i] in t && t[segs[..i]].Leaf?
  }

  function Prefixes(segs: Path): (r: set<Path>)
    ensures forall p :: p in r <==> p <= segs
  {
    var r := set i | 0 <= i <= |segs| :: segs[..i];
    assert forall p :: p <= segs ==> p == segs[..|p|];
    r
  }

  /** setLeaf, whatever was there before. */
  ghost function SetLeaf(t: Tree, segs: Path, v: bytes): Tree
  {
    map p | p in t.Keys + Prefixes(segs) && !(segs < p) ::
      if p == segs then Leaf(Str(v)) else if p <= segs then Branch else t[p]
  }

  lemma GraftWellFormed(t: Tree, p: Path, seg: bytes, e: Entry)
    requires WellFormed(t) && p in t && t[p] == Branch
    requires e == Branch || forall k :: Down(Down(p, seg), k) !in t
    ensures WellFormed(t[Down(p, seg) := e])
  {
    DownInjective(p, seg);
  }

  /** What is left when the thing at a path, with everything below it, is taken away. */
  ghost function Without<T>(m: map<Path, T>, path: Path): map<Path, T>
  {
    map q | q in m && !(path <= q) :: m[q]
  }

  lemma PrefixDown(path: Path, q: Path, k: bytes)
    ensures path <= Down(q, k) <==> path <= q || path == Down(q, k)
  {
    if path <= Down(q, k) && path != Down(q, k) {
      assert path == Down(q, k)[..|path|] == q[..|path|];
    }
    if path <= q {
      assert path == q[..|path|] == Down(q, k)[..|path|];
    }
  }

  lemma ReplaceWellFormed(t: Tree, p: Path, seg: bytes, e: Entry)
    requires WellFormed(t) && p in t && t[p] == Branch
    ensures WellFormed(Without(t, Down(p, seg))[Down(p, seg) := e])
  {
    var path := Down(p, seg);
    DownInjective(p, seg);
    var u := Without(t, path)[path := e];
    assert !(path <= p);
    forall q: Path, k: bytes | Down(q, k) in u ensures q in u && u[q] == Branch {
      PrefixDown(path, q, k);
    }
  }

  // ---------------------------------------------------------------- nested maps on the heap

  class Node {
    var kids: map<bytes, Item>

    constructor ()
      ensures kids == map[]
    {
      kids := map[];
    }
  }

  datatype Item = Plain(value: Scalar) | Map(node: Node)

  ghost predicate Shows(kids: map<bytes, Item>, k: bytes, t: Tree, p: Path, layout: map<Path, Node>)
  {
    && (k in kids <==> p in t)
    && (k in kids ==>
          match kids[k]
          case Plain(v) => t[p] == Leaf(v)
          case Map(n) => t[p] == Branch && p in layout && layout[p] == n)
  }

  /** A values map, what it holds, and which map is at which path: no map is at two paths. */
  class Values {
    const root: Node
    ghost var contents: Tree
    ghost var layout: map<Path, Node>

    constructor ()
      ensures Valid() && contents == EMPTY && fresh(layout.Values)
    {
      var n := new Node();
      root, contents, layout := n, EMPTY, map[[] := n];
    }

    ghost predicate Valid()
      reads this, layout.Values
    {
      && [] in layout && layout[[]] == root
      && WellFormed(contents)
      && (forall p :: p in layout <==> p in contents && contents[p] == Branch)
      && (forall p, q :: p in layout && q in layout && layout[p] == layout[q] ==> p == q)
      && (forall q, k :: q in layout ==> Shows(layout[q].kids, k, contents, Down(q, k), layout))
    }

    method HasLeafAt(path: bytes) returns (present: bool)
      requires Valid()
      ensures present == HasLeaf(contents, Split(path, '.'))
    {
      var segs := Split(path, '.');
      var cur := root;
      var i := 0;
      while i < |segs|
        invariant i < |segs| && segs[..i] in layout && cur == layout[segs[..i]]
        invariant forall j :: 0 < j <= i ==> segs[..j] in contents && contents[segs[..j]] == Branch
        decreases |segs| - i
      {
        assert segs[..i + 1] == Down(segs[..i], segs[i]);
        assert Shows(cur.kids, segs[i], contents, segs[..i + 1], layout);
        if segs[i] !in cur.kids {
          AbsentBeyond(contents, segs, i + 1);
          return false;
        }
        if i == |segs| - 1 {
          assert segs[..i + 1] == segs;
          return true;
        }
        match cur.kids[segs[i]] {
          case Plain(_) => return true;
          case Map(n) => cur := n;
        }
        i := i + 1;
      }
    }

    /** cur[seg] as a map, put there if it is not one. */
    method Child(ghost p: Path, cur: Node, seg: bytes) returns (next: Node)
      requires Valid() && p in layout && layout[p] == cur
      modifies this`layout, this`contents, cur
      ensures Valid() && Down(p, seg) in layout && layout[Down(p, seg)] == next
      ensures contents == old(contents)[Down(p, seg) := Branch]
      ensures fresh(layout.Values - old(layout.Values))
    {
      DownInjective(p, seg);
      assert Shows(cur.kids, seg, contents, Down(p, seg), layout);
      if seg in cur.kids && cur.kids[seg].Map? {
        assert contents == contents[Down(p, seg) := Branch];
        return cur.kids[seg].node;
      }
      next := new Node();
      ghost var path, contents0, layout0, kids0 := Down(p, seg), contents, layout, cur.kids;
      cur.kids := cur.kids[seg := Map(next)];
      layout := layout[path := next];
      contents := contents[path := Branch];
      GraftWellFormed(contents0, p, seg, Branch);
      forall q, k | q in layout ensures Shows(layout[q].kids, k, contents, Down(q, k), layout) {
        if q != path {
          assert old(Shows(layout0[q].kids, k, contents0, Down(q, k), layout0));
          assert q != p ==> layout[q] != cur && layout[q].kids == old(layout0[q].kids);
        } else {
          assert layout[q].kids == map[];
          assert Down(path, k) !in contents0;
          DownInjective(path, k);
        }
      }
    }

    /** cur[seg] = v, whatever was there before. */
    method Put(ghost p: Path, cur: Node, seg: bytes, v: bytes)
      requires Valid() && p in layout && layout[p] == cur
      modifies this`layout, this`contents, cur
      ensures Valid() && layout.Values <= old(layout.Values)
      ensures contents == Without(old(contents), Down(p, seg))[Down(p, seg) := Leaf(Str(v))]
    {
      ghost var path, contents0, layout0 := Down(p, seg), contents, layout;
      cur.kids := cur.kids[seg := Plain(Str(v))];
      layout := Without(layout, path);
      contents := Without(contents, path)[path := Leaf(Str(v))];
      ReplaceWellFormed(contents0, p, seg, Leaf(Str(v)));
      forall q, k | q in layout ensures Shows(layout[q].kids, k, contents, Down(q, k), layout) {
        assert old(Shows(layout0[q].kids, k, contents0, Down(q, k), layout0));
        PrefixDown(path, q, k);
        DownInjective(p, seg);
        assert q != p ==> layout[q] != cur && layout[q].kids == old(layout0[q].kids);
      }
    }

    /** setLeaf: walks down, making maps as needed, and writes the last segment. */
    method SetLeafAt(path: bytes, v: bytes)
      requires Valid()
      modifies this`layout, this`contents, layout.Values
      ensures Valid() && fresh(layout.Values - old(layout.Values))
      ensures contents == SetLeaf(old(contents), Split(path, '.'), v)
    {
      var segs := Split(path, '.');
      ghost var t := contents;
      var cur := root;
      var i := 0;
      while i < |segs| - 1
        invariant i < |segs| && Valid()
        invariant segs[..i] in layout && cur == layout[segs[..i]]
        invariant fresh(layout.Values - old(layout.Values))
        invariant contents == Cleared(t, segs, i)
      {
        assert segs[..i + 1] == Down(segs[..i], segs[i]);
        ClearedNext(t, segs, i);
        cur := Child(segs[..i], cur, segs[i]);
        i := i + 1;
      }
      assert segs[..i + 1] == Down(segs[..i], segs[i]) == segs;
      ClearedLast(t, segs, v);
      Put(segs[..i], cur, segs[i], v);
    }
  }

  /** The first i maps of the way to segs are there. */
  ghost function Cleared(t: Tree, segs: Path, i: nat): Tree
    requires i <= |segs|
  {
    map p | p in t.Keys + Prefixes(segs[..i]) :: if p <= segs[..i] then Branch else t[p]
  }

  lemma PrefixesNext(segs: Path, i: nat)
    requires i < |segs|
    ensures Prefixes(segs[..i + 1]) == Prefixes(segs[..i]) + {segs[..i + 1]}
  {
    assert segs[..i + 1] == Down(segs[..i], segs[i]);
    forall p: Path ensures p in Prefixes(segs[..i + 1]) <==> p in Prefixes(segs[..i]) || p == segs[..i + 1] {
      PrefixDown(p, segs[..i], segs[i]);
    }
  }

  lemma ClearedNext(t: Tree, segs: Path, i: nat)
    requires i < |segs|
    ensures Cleared(t, segs, i + 1) == Cleared(t, segs, i)[segs[..i + 1] := Branch]
  {
    PrefixesNext(segs, i);
    var l, r := Cleared(t, segs, i + 1), Cleared(t, segs, i)[segs[..i + 1] := Branch];
    forall p: Path ensures (p in l <==> p in r) && (p in l ==> l[p] == r[p]) {
      assert p <= segs[..i + 1] <==> p in Prefixes(segs[..i + 1]);
      assert p <= segs[..i] <==> p in Prefixes(segs[..i]);
    }
  }

  lemma ClearedLast(t: Tree, segs: Path, v: bytes)
    requires |segs| >= 1
    ensures Without(Cleared(t, segs, |segs| - 1), segs)[segs := Leaf(Str(v))] == SetLeaf(t, segs, v)
  {
    var i := |segs| - 1;
    var way := segs[..i];
    PrefixesNext(segs, i);
    assert segs[..i + 1] == segs;
    var l, r := Without(Cleared(t, segs, i), segs)[segs := Leaf(Str(v))], SetLeaf(t, segs, v);
    forall p: Path ensures (p in l <==> p in r) && (p in l ==> l[p] == r[p]) {
      assert p in Prefixes(segs) <==> p in Prefixes(way) || p == segs;
      assert p in Prefixes(way) ==> |p| <= i;
      assert segs <= p ==> |p| > i && (segs < p || p == segs);
    }
  }

  lemma AbsentBeyond(t: Tree, segs: Path, i: nat)
    requires WellFormed(t) && 0 < i <= |segs| && segs[..i] !in t
    requires forall j :: 0 < j < i ==> segs[..j] in t && t[segs[..j]] == Branch
    ensures !HasLeaf(t, segs)
  {
    assert segs[..|segs|] == segs;
    forall j | i <= j <= |segs| ensures segs[..j] !in t {
      if segs[..j] in t && i < j {
        assert segs[..j][..i] == segs[..i];
        AncestorsAreBranches(t, segs[..j], i);
      }
    }
  }

  // ---------------------------------------------------------------- the merge

  datatype Settings = Settings(issuerURL: bytes, clientID: bytes, jwksURL: bytes, workloadIssuerURL: bytes,
                               groupsClaim: bytes, iframeIssuerURL: bytes, coreURL: bytes)

  const SHARED_NAMES: set<bytes> :=
    {"issuerUrl", "clientId", "jwksUrl", "workloadIssuerUrl", "groupsClaim", "iframeIssuerUrl", "coreUrl"}

  function Add(m: map<bytes, bytes>, key: bytes, value: bytes): map<bytes, bytes>
  {
    if value != [] then m[key := value] else m
  }

  /** asMap: the settings this deployment has a value for. */
  function AsMap(s: Settings): map<bytes, bytes>
  {
    var m := Add(map[], "issuerUrl", s.issuerURL);
    var m := Add(m, "clientId", s.clientID);
    var m := Add(m, "jwksUrl", s.jwksURL);
    var m := Add(m, "workloadIssuerUrl", s.workloadIssuerURL);
    var m := Add(m, "groupsClaim", s.groupsClaim);
    var m := Add(m, "iframeIssuerUrl", s.iframeIssuerURL);
    Add(m, "coreUrl", s.coreURL)
  }

  /** Where a setting goes and what is written there. */
  datatype Target = Target(way: Path, value: bytes)

  /** What the merge may write: the recognised names this deployment has a value for. */
  function Plan(available: map<bytes, bytes>, mapping: map<bytes, bytes>): map<bytes, Target>
  {
    map name | name in mapping && name in SHARED_NAMES && name in available ::
      Target(Split(mapping[name], '.'), available[name])
  }

  datatype Outcome = Outcome(tree: Tree, merged: seq<bytes>)

  /** One round of the loop, and the rounds for a whole order. */
  ghost function Fill(plan: map<bytes, Target>, o: Outcome, name: bytes): Outcome
  {
    if name !in plan || HasLeaf(o.tree, plan[name].way) then o
    else Outcome(SetLeaf(o.tree, plan[name].way, plan[name].value), o.merged + [name])
  }

  ghost function FillAll(plan: map<bytes, Target>, o: Outcome, order: seq<bytes>): Outcome
    decreases |order|
  {
    if order == [] then o
    else Fill(plan, FillAll(plan, o, order[..|order| - 1]), order[|order| - 1])
  }

  /** An order in which Go may go through a map with these keys. */
  ghost predicate IsOrder(keys: set<bytes>, order: seq<bytes>)
  {
    multiset(order) == multiset(keys)
  }

  /** The body of the loop. */
  method FillOne(available: map<bytes, bytes>, mapping: map<bytes, bytes>, name: bytes, values: Values, merged: seq<bytes>)
    returns (now: seq<bytes>)
    requires values.Valid() && name in mapping
    modifies values`layout, values`contents, values.layout.Values
    ensures values.Valid() && fresh(values.layout.Values - old(values.layout.Values))
    ensures Outcome(values.contents, now) == Fill(Plan(available, mapping), Outcome(old(values.contents), merged), name)
  {
    now := merged;
    if name !in SHARED_NAMES { return; }
    if name !in available { return; }
    var present := values.HasLeafAt(mapping[name]);
    if present { return; }
    values.SetLeafAt(mapping[name], available[name]);
    now := merged + [name];
  }

  lemma FillAllNext(plan: map<bytes, Target>, o: Outcome, order: seq<bytes>, name: bytes)
    ensures FillAll(plan, o, order + [name]) == Fill(plan, FillAll(plan, o, order), name)
  {
    assert (order + [name])[..|order|] == order;
  }

  method FillGaps(available: map<bytes, bytes>, mapping: map<bytes, bytes>, values: Values)
    returns (merged: seq<bytes>, ghost order: seq<bytes>)
    requires values.Valid()
    modifies values`layout, values`contents, values.layout.Values
    ensures values.Valid() && fresh(values.layout.Values - old(values.layout.Values))
    ensures IsOrder(mapping.Keys, order)
    ensures FillAll(Plan(available, mapping), Outcome(old(values.contents), []), order) == Outcome(values.contents, merged)
  {
    merged, order := [], [];
    ghost var start := Outcome(values.contents, []);
    var remaining := mapping.Keys;
    while remaining != {}
      invariant values.Valid() && remaining <= mapping.Keys
      invariant fresh(values.layout.Values - old(values.layout.Values))
      invariant multiset(order) + multiset(remaining) == multiset(mapping.Keys)
      invariant FillAll(Plan(available, mapping), start, order) == Outcome(values.contents, merged)
      decreases |remaining|
    {
      var name :| name in remaining;
      remaining := remaining - {name};
      merged := FillOne(available, mapping, name, values, merged);
      FillAllNext(Plan(available, mapping), start, order, name);
      order := order + [name];
    }
  }

  /** mergeIdentitySettings; a missing or unreadable annotation is None, and a null map of values is
      replaced by an empty one. */
  method MergeIdentitySettings(annotation: Option<map<bytes, bytes>>, identity: Settings, given: Values?)
    returns (values: Values?, merged: seq<bytes>, ghost order: seq<bytes>)
    requires given != null ==> given.Valid()
    modifies if given == null then {} else {given} + given.layout.Values
    ensures given != null ==> values == given && given.Valid()
    ensures annotation.None? ==> values == given && merged == [] && (given != null ==> given.contents == old(given.contents))
    ensures annotation.Some? ==> values != null && values.Valid()
    ensures annotation.Some? ==> IsOrder(annotation.value.Keys, order)
    ensures annotation.Some? ==>
      var r := FillAll(Plan(AsMap(identity), annotation.value), Outcome(if given == null then EMPTY else old(given.contents), []), order);
      values.contents == r.tree && merged == SortStrings(r.merged)
  {
    values, merged, order := given, [], [];
    if annotation.None? { return; }
    if values == null { values := new Values(); }
    merged, order := FillGaps(AsMap(identity), annotation.value, values);
    merged := SortStrings(merged);
  }
}
