/** What the identity merge of internal/lifecycle/identity.go guarantees: it only fills gaps, it
    fills all of them, and exactly when its result depends on the iteration order. */
module IdentityLaws {
  import opened Text
  import opened Sorting
  import opened Identity

  // ---------------------------------------------------------------- conservative and complete

  ghost predicate Extends(t: Tree, u: Tree) { forall p <- t :: p in u && u[p] == t[p] }

  /** Splitting never gives an empty path. */
  predicate Planned(plan: map<bytes, Target>) { forall n <- plan :: plan[n].way != [] }

  ghost predicate Legible(m: map<bytes, bytes>)
  {
    m.Keys <= SHARED_NAMES && forall n <- m :: m[n] != []
  }

  /** A setting without a value is left out rather than written as an empty string. */
  lemma NoEmptySetting(s: Settings)
    ensures Legible(AsMap(s))
  {
    var m := Add(map[], "issuerUrl", s.issuerURL);
    assert Legible(m);
    m := Add(m, "clientId", s.clientID);
    assert Legible(m);
    m := Add(m, "jwksUrl", s.jwksURL);
    assert Legible(m);
    m := Add(m, "workloadIssuerUrl", s.workloadIssuerURL);
    assert Legible(m);
    m := Add(m, "groupsClaim", s.groupsClaim);
    assert Legible(m);
    m := Add(m, "iframeIssuerUrl", s.iframeIssuerURL);
    assert Legible(m);
  }

  /** Filling a gap adds the path and the maps on the way to it, and changes nothing else: the case
      where setLeaf would replace something is not reached. */
  lemma GapFilled(t: Tree, segs: Path, v: bytes)
    requires WellFormed(t) && !HasLeaf(t, segs) && |segs| >= 1
    ensures var u := SetLeaf(t, segs, v);
            && WellFormed(u)
            && (forall p :: p in u <==> p in t || p <= segs)
            && (forall p <- u :: u[p] == if p in t then t[p] else if p == segs then Leaf(Str(v)) else Branch)
  {
    var u := SetLeaf(t, segs, v);
    forall p | p in t ensures !(segs <= p) && (p <= segs ==> t[p] == Branch) {
      if segs <= p && segs != p {
        assert segs == p[..|segs|];
        AncestorsAreBranches(t, p, |segs|);
      }
      if p <= segs { assert p == segs[..|p|]; }
    }
    forall q: Path, k: bytes | Down(q, k) in u ensures q in u && u[q] == Branch {
      if Down(q, k) !in t {
        assert q == Down(q, k)[..|q|] == segs[..|q|];
      }
    }
  }

  /** A name whose path the caller left open. */
  ghost predicate Gap(plan: map<bytes, Target>, t: Tree, n: bytes)
  {
    n in plan && !HasLeaf(t, plan[n].way)
  }

  ghost predicate Holds(plan: map<bytes, Target>, u: Tree, n: bytes)
  {
    n in plan && plan[n].way in u && u[plan[n].way] == Leaf(Str(plan[n].value))
  }

  /** Entry e at p is one of the reported values, or a map on the way to one. */
  ghost predicate Accounted(plan: map<bytes, Target>, names: seq<bytes>, p: Path, e: Entry)
  {
    exists n <- names :: n in plan && p <= plan[n].way && e == if p == plan[n].way then Leaf(Str(plan[n].value)) else Branch
  }

  /** What a merge from t to u may have done, given the names it reports. */
  ghost predicate OnlyFills(plan: map<bytes, Target>, t: Tree, u: Tree, names: seq<bytes>)
  {
    && Extends(t, u)
    && (forall n <- names :: Gap(plan, t, n) && Holds(plan, u, n))
    && (forall p <- u :: p in t || Accounted(plan, names, p, u[p]))
  }

  lemma HasLeafGrows(t: Tree, u: Tree, segs: Path)
    requires Extends(t, u) && HasLeaf(t, segs)
    ensures HasLeaf(u, segs)
  {
    if segs !in t {
      var i :| 0 < i < |segs| && segs[..i] in t && t[segs[..i]].Leaf?;
      assert segs[..i] in u && u[segs[..i]].Leaf?;
    }
  }

  lemma PrefixIsBranch(u: Tree, way: Path, p: Path)
    requires WellFormed(u) && way in u && p <= way && p != way
    ensures p in u && u[p] == Branch
  {
    assert p == way[..|p|];
    AncestorsAreBranches(u, way, |p|);
  }

  lemma StillAccounted(plan: map<bytes, Target>, names: seq<bytes>, name: bytes, p: Path, e: Entry)
    requires Accounted(plan, names, p, e)
    ensures Accounted(plan, names + [name], p, e)
  {
    var n :| n in names && n in plan && p <= plan[n].way && e == if p == plan[n].way then Leaf(Str(plan[n].value)) else Branch;
    assert n in names + [name];
  }

  lemma NewlyAccounted(plan: map<bytes, Target>, names: seq<bytes>, name: bytes, p: Path)
    requires name in plan && p <= plan[name].way
    ensures Accounted(plan, names + [name], p, if p == plan[name].way then Leaf(Str(plan[name].value)) else Branch)
  {
    assert name in names + [name];
  }

  lemma FillExtends(plan: map<bytes, Target>, o: Outcome, name: bytes)
    requires Planned(plan) && WellFormed(o.tree)
    ensures var r := Fill(plan, o, name);
            && WellFormed(r.tree) && Extends(o.tree, r.tree)
            && (name in plan ==> HasLeaf(r.tree, plan[name].way))
            && (Gap(plan, o.tree, name) ==> Holds(plan, r.tree, name))
  {
    if Gap(plan, o.tree, name) { GapFilled(o.tree, plan[name].way, plan[name].value); }
  }

  lemma FillAccounts(plan: map<bytes, Target>, t: Tree, o: Outcome, name: bytes)
    requires Planned(plan) && WellFormed(o.tree) && Gap(plan, o.tree, name)
    requires forall p <- o.tree :: p in t || Accounted(plan, o.merged, p, o.tree[p])
    ensures var r := Fill(plan, o, name);
            forall p <- r.tree :: p in t || Accounted(plan, r.merged, p, r.tree[p])
  {
    GapFilled(o.tree, plan[name].way, plan[name].value);
    var u := SetLeaf(o.tree, plan[name].way, plan[name].value);
    forall p | p in u && p !in t ensures Accounted(plan, o.merged + [name], p, u[p]) {
      if p in o.tree {
        StillAccounted(plan, o.merged, name, p, u[p]);
      } else {
        NewlyAccounted(plan, o.merged, name, p);
      }
    }
  }

  lemma StillHolds(plan: map<bytes, Target>, t: Tree, u: Tree, n: bytes)
    requires Extends(t, u) && Holds(plan, t, n)
    ensures Holds(plan, u, n)
  {
    assert plan[n].way in t;
  }

  /** Extending what only fills by one more name. */
  lemma OnlyFillsGrows(plan: map<bytes, Target>, t: Tree, u: Tree, names: seq<bytes>, v: Tree, name: bytes)
    requires OnlyFills(plan, t, u, names) && Extends(u, v) && Gap(plan, t, name) && Holds(plan, v, name)
    requires forall p <- v :: p in t || Accounted(plan, names + [name], p, v[p])
    ensures OnlyFills(plan, t, v, names + [name])
  {
    forall n | n in names + [name] ensures Gap(plan, t, n) && Holds(plan, v, n) {
      if n in names { StillHolds(plan, u, v, n); }
    }
    forall p | p in t ensures p in v && v[p] == t[p] {
      assert p in u;
    }
  }

  lemma FillOnlyFills(plan: map<bytes, Target>, t: Tree, o: Outcome, name: bytes)
    requires Planned(plan) && WellFormed(o.tree) && OnlyFills(plan, t, o.tree, o.merged)
    ensures var r := Fill(plan, o, name); OnlyFills(plan, t, r.tree, r.merged)
  {
    if Gap(plan, o.tree, name) {
      FillExtends(plan, o, name);
      FillAccounts(plan, t, o, name);
      if HasLeaf(t, plan[name].way) { HasLeafGrows(t, o.tree, plan[name].way); }
      OnlyFillsGrows(plan, t, o.tree, o.merged, SetLeaf(o.tree, plan[name].way, plan[name].value), name);
    }
  }

  lemma BlocksBelow(t: Tree, way: Path, segs: Path)
    requires way != [] && way in t && t[way].Leaf? && way <= segs
    ensures HasLeaf(t, segs)
  {
    assert way == segs[..|way|] && segs == segs[..|segs|];
  }

  /** For every nested values tree, every mapping and every iteration order: what the caller set is
      unchanged and every map stays a map; each reported name's path holds exactly core's value;
      nothing else is added but the maps on the way; and every recognised name with a value ends up
      present. */
  lemma {:induction false} MergeFillsGaps(plan: map<bytes, Target>, t: Tree, order: seq<bytes>)
    requires WellFormed(t) && Planned(plan)
    ensures var r := FillAll(plan, Outcome(t, []), order);
            && WellFormed(r.tree) && OnlyFills(plan, t, r.tree, r.merged)
            && (forall n <- order :: n in plan ==> HasLeaf(r.tree, plan[n].way))
    decreases |order|
  {
    if order != [] {
      var first, name := order[..|order| - 1], order[|order| - 1];
      assert order == first + [name];
      MergeFillsGaps(plan, t, first);
      var o := FillAll(plan, Outcome(t, []), first);
      FillOnlyFills(plan, t, o, name);
      FillExtends(plan, o, name);
      var r := Fill(plan, o, name);
      forall n | n in order && n in plan ensures HasLeaf(r.tree, plan[n].way) {
        if n != name { HasLeafGrows(o.tree, r.tree, plan[n].way); }
      }
    }
  }

  lemma OrderMembers(keys: set<bytes>, order: seq<bytes>)
    requires IsOrder(keys, order)
    ensures forall n :: n in order <==> n in keys
  {
    forall n ensures n in order <==> n in keys {
      assert n in order <==> n in multiset(order);
    }
  }

  /** A second merge, in whatever order, changes nothing and reports nothing. */
  lemma SecondMergeAddsNothing(plan: map<bytes, Target>, keys: set<bytes>, t: Tree, order: seq<bytes>, again: seq<bytes>)
    requires WellFormed(t) && Planned(plan) && plan.Keys <= keys && IsOrder(keys, order)
    ensures var u := FillAll(plan, Outcome(t, []), order).tree;
            FillAll(plan, Outcome(u, []), again) == Outcome(u, [])
  {
    MergeFillsGaps(plan, t, order);
    OrderMembers(keys, order);
    NothingMissing(plan, FillAll(plan, Outcome(t, []), order).tree, again);
  }

  lemma {:induction false} NothingMissing(plan: map<bytes, Target>, u: Tree, order: seq<bytes>)
    requires forall n <- plan :: HasLeaf(u, plan[n].way)
    ensures FillAll(plan, Outcome(u, []), order) == Outcome(u, [])
    decreases |order|
  {
    if order != [] { NothingMissing(plan, u, order[..|order| - 1]); }
  }

  // ---------------------------------------------------------------- order independence

  /** No usable path equals another or is a prefix of it. */
  ghost predicate Incomparable(plan: map<bytes, Target>)
  {
    forall a <- plan, b <- plan :: a != b ==> !(plan[a].way <= plan[b].way)
  }

  /** The names among an order's that are gaps. */
  ghost function Gaps(plan: map<bytes, Target>, t: Tree, order: seq<bytes>): (r: seq<bytes>)
    ensures forall n <- r :: n in order
    decreases |order|
  {
    if order == [] then []
    else
      Gaps(plan, t, order[..|order| - 1]) + if Gap(plan, t, order[|order| - 1]) then [order[|order| - 1]] else []
  }

  lemma {:induction false} GapsCounted(plan: map<bytes, Target>, t: Tree, order: seq<bytes>, n: bytes)
    ensures multiset(Gaps(plan, t, order))[n] == if Gap(plan, t, n) then multiset(order)[n] else 0
    decreases |order|
  {
    if order != [] {
      GapsCounted(plan, t, order[..|order| - 1], n);
      assert order == order[..|order| - 1] + [order[|order| - 1]];
    }
  }

  /** What other names add is neither at this name's path nor a value on the way to it. */
  lemma OthersKeepClear(plan: map<bytes, Target>, names: seq<bytes>, name: bytes, p: Path, e: Entry)
    requires Incomparable(plan) && name in plan && name !in names && Accounted(plan, names, p, e)
    ensures !(plan[name].way <= p) && (p <= plan[name].way ==> e == Branch)
  {
    var n :| n in names && n in plan && p <= plan[n].way && e == if p == plan[n].way then Leaf(Str(plan[n].value)) else Branch;
    assert !(plan[n].way <= plan[name].way) && !(plan[name].way <= plan[n].way);
  }

  /** With incomparable paths, whether a name is written depends on the caller's tree alone. */
  lemma OthersDoNotMatter(plan: map<bytes, Target>, t: Tree, u: Tree, names: seq<bytes>, name: bytes)
    requires Incomparable(plan) && OnlyFills(plan, t, u, names)
    requires name in plan && name !in names
    ensures HasLeaf(u, plan[name].way) <==> HasLeaf(t, plan[name].way)
  {
    forall p | p in u && p !in t ensures !(plan[name].way <= p) && (p <= plan[name].way ==> u[p] == Branch) {
      OthersKeepClear(plan, names, name, p, u[p]);
    }
    if HasLeaf(t, plan[name].way) { HasLeafGrows(t, u, plan[name].way); }
  }

  predicate NoDuplicates(order: seq<bytes>) { forall i, j :: 0 <= i < j < |order| ==> order[i] != order[j] }

  lemma {:induction false} ReportsTheGaps(plan: map<bytes, Target>, t: Tree, order: seq<bytes>)
    requires WellFormed(t) && Planned(plan) && Incomparable(plan) && NoDuplicates(order)
    ensures FillAll(plan, Outcome(t, []), order).merged == Gaps(plan, t, order)
    decreases |order|
  {
    if order != [] {
      var first, name := order[..|order| - 1], order[|order| - 1];
      ReportsTheGaps(plan, t, first);
      MergeFillsGaps(plan, t, first);
      if name in plan {
        OthersDoNotMatter(plan, t, FillAll(plan, Outcome(t, []), first).tree, Gaps(plan, t, first), name);
      }
    }
  }

  lemma {:induction false} OrderNoDuplicates(order: seq<bytes>)
    requires forall n :: multiset(order)[n] <= 1
    ensures NoDuplicates(order)
    decreases |order|
  {
    if order != [] {
      var first, name := order[..|order| - 1], order[|order| - 1];
      assert order == first + [name];
      assert multiset(order) == multiset(first) + multiset{name};
      forall n ensures multiset(first)[n] <= 1 { assert multiset(order)[n] <= 1; }
      OrderNoDuplicates(first);
      assert name !in multiset(first) by { assert multiset(order)[name] <= 1; }
      assert name !in first;
    }
  }

  /** The same merge in both orders: the same tree, and the same sorted report. */
  ghost predicate SameMerge(plan: map<bytes, Target>, t: Tree, o1: seq<bytes>, o2: seq<bytes>)
  {
    var r1, r2 := FillAll(plan, Outcome(t, []), o1), FillAll(plan, Outcome(t, []), o2);
    r1.tree == r2.tree && SortStrings(r1.merged) == SortStrings(r2.merged)
  }

  lemma SameReport(plan: map<bytes, Target>, keys: set<bytes>, t: Tree, o1: seq<bytes>, o2: seq<bytes>)
    requires IsOrder(keys, o1) && IsOrder(keys, o2)
    ensures multiset(Gaps(plan, t, o1)) == multiset(Gaps(plan, t, o2))
  {
    forall n ensures multiset(Gaps(plan, t, o1))[n] == multiset(Gaps(plan, t, o2))[n] {
      GapsCounted(plan, t, o1, n);
      GapsCounted(plan, t, o2, n);
    }
  }

  lemma SameEntry(plan: map<bytes, Target>, u: Tree, names: seq<bytes>, p: Path, e: Entry)
    requires WellFormed(u) && Accounted(plan, names, p, e) && forall n <- names :: Holds(plan, u, n)
    ensures p in u && u[p] == e
  {
    var n :| n in names && n in plan && p <= plan[n].way && e == if p == plan[n].way then Leaf(Str(plan[n].value)) else Branch;
    assert Holds(plan, u, n);
    if p != plan[n].way { PrefixIsBranch(u, plan[n].way, p); }
  }

  lemma Contained(plan: map<bytes, Target>, t: Tree, u1: Tree, u2: Tree, g1: seq<bytes>, g2: seq<bytes>)
    requires WellFormed(u2) && OnlyFills(plan, t, u1, g1) && OnlyFills(plan, t, u2, g2)
    requires forall n <- g1 :: n in g2
    ensures Extends(u1, u2)
  {
    forall p | p in u1 ensures p in u2 && u2[p] == u1[p] {
      if p !in t { SameEntry(plan, u2, g1, p, u1[p]); }
    }
  }

  lemma SameMembers(a: seq<bytes>, b: seq<bytes>)
    requires multiset(a) == multiset(b)
    ensures forall n :: n in a <==> n in b
  {
    forall n ensures n in a <==> n in b {
      assert n in a <==> n in multiset(a);
      assert n in b <==> n in multiset(b);
    }
  }

  lemma ExtendsBothWays(t: Tree, u: Tree)
    requires Extends(t, u) && Extends(u, t)
    ensures t == u
  {
  }

  lemma SameTrees(plan: map<bytes, Target>, t: Tree, r1: Outcome, r2: Outcome)
    requires WellFormed(r1.tree) && OnlyFills(plan, t, r1.tree, r1.merged)
    requires WellFormed(r2.tree) && OnlyFills(plan, t, r2.tree, r2.merged)
    requires multiset(r1.merged) == multiset(r2.merged)
    ensures r1.tree == r2.tree
  {
    SameMembers(r1.merged, r2.merged);
    Contained(plan, t, r1.tree, r2.tree, r1.merged, r2.merged);
    Contained(plan, t, r2.tree, r1.tree, r2.merged, r1.merged);
    ExtendsBothWays(r1.tree, r2.tree);
  }

  /** The names of an order are distinct, so the merge reports exactly its gaps. */
  lemma OrderReportsTheGaps(plan: map<bytes, Target>, keys: set<bytes>, t: Tree, order: seq<bytes>)
    requires Planned(plan) && Incomparable(plan) && WellFormed(t) && IsOrder(keys, order)
    ensures FillAll(plan, Outcome(t, []), order).merged == Gaps(plan, t, order)
  {
    OrderNoDuplicates(order);
    ReportsTheGaps(plan, t, order);
  }

  lemma IncomparableSame(plan: map<bytes, Target>, keys: set<bytes>, t: Tree, o1: seq<bytes>, o2: seq<bytes>)
    requires Planned(plan) && Incomparable(plan) && WellFormed(t) && IsOrder(keys, o1) && IsOrder(keys, o2)
    ensures SameMerge(plan, t, o1, o2)
  {
    OrderReportsTheGaps(plan, keys, t, o1);
    OrderReportsTheGaps(plan, keys, t, o2);
    MergeFillsGaps(plan, t, o1);
    MergeFillsGaps(plan, t, o2);
    SameReport(plan, keys, t, o1, o2);
    SortStringsOrderFree(Gaps(plan, t, o1), Gaps(plan, t, o2));
    SameTrees(plan, t, FillAll(plan, Outcome(t, []), o1), FillAll(plan, Outcome(t, []), o2));
  }

  lemma {:induction false} OrderOf(keys: set<bytes>) returns (order: seq<bytes>)
    ensures IsOrder(keys, order)
    decreases |keys|
  {
    if keys == {} {
      order := [];
    } else {
      var k :| k in keys;
      order := OrderOf(keys - {k});
      order := order + [k];
    }
  }

  /** An order that starts with a given name. */
  lemma OrderFrom(keys: set<bytes>, first: bytes) returns (order: seq<bytes>)
    requires first in keys
    ensures IsOrder(keys, order) && order != [] && order[0] == first
  {
    order := OrderOf(keys - {first});
    order := [first] + order;
  }

  /** A gap that comes first is written, and stays reported; what it then makes present never is. */
  lemma {:induction false} FirstWins(plan: map<bytes, Target>, t: Tree, order: seq<bytes>)
    requires Planned(plan) && WellFormed(t) && order != [] && Gap(plan, t, order[0])
    ensures var r := FillAll(plan, Outcome(t, []), order);
            && order[0] in r.merged && Holds(plan, r.tree, order[0]) && WellFormed(r.tree)
            && (forall n <- plan :: n != order[0] && plan[order[0]].way <= plan[n].way ==> n !in r.merged)
    decreases |order|
  {
    var first, last := order[..|order| - 1], order[|order| - 1];
    if |order| == 1 {
      assert first == [];
      FillExtends(plan, Outcome(t, []), order[0]);
    } else {
      FirstWins(plan, t, first);
      StillFirst(plan, FillAll(plan, Outcome(t, []), first), order[0], last);
    }
  }

  lemma StillFirst(plan: map<bytes, Target>, o: Outcome, winner: bytes, name: bytes)
    requires Planned(plan) && WellFormed(o.tree) && Holds(plan, o.tree, winner) && winner in o.merged
    requires forall n <- plan :: n != winner && plan[winner].way <= plan[n].way ==> n !in o.merged
    ensures var r := Fill(plan, o, name);
            && winner in r.merged && Holds(plan, r.tree, winner) && WellFormed(r.tree)
            && (forall n <- plan :: n != winner && plan[winner].way <= plan[n].way ==> n !in r.merged)
  {
    if name in plan && plan[winner].way <= plan[name].way {
      BlocksBelow(o.tree, plan[winner].way, plan[name].way);
    }
    FillExtends(plan, o, name);
    StillHolds(plan, o.tree, Fill(plan, o, name).tree, winner);
  }

  /** The part of the plan that the caller left open. */
  ghost function Open(plan: map<bytes, Target>, t: Tree): map<bytes, Target>
  {
    map n | n in plan && Gap(plan, t, n) :: plan[n]
  }

  /** What the caller has set plays no part in the merge. */
  lemma {:induction false} OpenDecides(plan: map<bytes, Target>, t: Tree, order: seq<bytes>)
    requires Planned(plan) && WellFormed(t)
    ensures FillAll(plan, Outcome(t, []), order) == FillAll(Open(plan, t), Outcome(t, []), order)
    decreases |order|
  {
    if order != [] {
      var first, name := order[..|order| - 1], order[|order| - 1];
      OpenDecides(plan, t, first);
      MergeFillsGaps(plan, t, first);
      if name in plan && HasLeaf(t, plan[name].way) {
        HasLeafGrows(t, FillAll(plan, Outcome(t, []), first).tree, plan[name].way);
      }
    }
  }

  lemma ComparableDiffers(plan: map<bytes, Target>, keys: set<bytes>, t: Tree, a: bytes, b: bytes) returns (o1: seq<bytes>, o2: seq<bytes>)
    requires Planned(plan) && plan.Keys <= keys && WellFormed(t)
    requires Gap(plan, t, a) && Gap(plan, t, b) && a != b && plan[a].way <= plan[b].way
    ensures IsOrder(keys, o1) && IsOrder(keys, o2) && !SameMerge(plan, t, o1, o2)
  {
    o1 := OrderFrom(keys, a);
    o2 := OrderFrom(keys, b);
    FirstWins(plan, t, o1);
    FirstWins(plan, t, o2);
    SortStringsMembers(FillAll(plan, Outcome(t, []), o1).merged);
    SortStringsMembers(FillAll(plan, Outcome(t, []), o2).merged);
  }

  /** For every values tree: the merge is the same for every iteration order if and only if, among the
      usable paths that the caller left open, none equals another or is a prefix of it. */
  lemma OrderFreeAt(plan: map<bytes, Target>, keys: set<bytes>, t: Tree)
    requires Planned(plan) && plan.Keys <= keys && WellFormed(t)
    ensures (forall o1, o2 :: IsOrder(keys, o1) && IsOrder(keys, o2) ==> SameMerge(plan, t, o1, o2))
            <==> Incomparable(Open(plan, t))
  {
    if Incomparable(Open(plan, t)) {
      forall o1, o2 | IsOrder(keys, o1) && IsOrder(keys, o2) ensures SameMerge(plan, t, o1, o2) {
        IncomparableSame(Open(plan, t), keys, t, o1, o2);
        OpenDecides(plan, t, o1);
        OpenDecides(plan, t, o2);
      }
    } else {
      var a, b :| a in Open(plan, t) && b in Open(plan, t) && a != b && plan[a].way <= plan[b].way;
      var o1, o2 := ComparableDiffers(plan, keys, t, a, b);
    }
  }

  /** On every values tree at once: if and only if the usable paths are pairwise neither equal nor
      prefixes of one another. */
  lemma OrderFreeExactly(plan: map<bytes, Target>, keys: set<bytes>)
    requires Planned(plan) && plan.Keys <= keys
    ensures (forall t: Tree, o1, o2 :: WellFormed(t) && IsOrder(keys, o1) && IsOrder(keys, o2) ==> SameMerge(plan, t, o1, o2))
            <==> Incomparable(plan)
  {
    if Incomparable(plan) {
      forall t: Tree, o1, o2 | WellFormed(t) && IsOrder(keys, o1) && IsOrder(keys, o2) ensures SameMerge(plan, t, o1, o2) {
        IncomparableSame(plan, keys, t, o1, o2);
      }
    } else {
      assert WellFormed(EMPTY) && Open(plan, EMPTY) == plan;
      OrderFreeAt(plan, keys, EMPTY);
    }
  }

  // ---------------------------------------------------------------- the merge that is run

  /** The field a recognised name stands for. */
  function Setting(s: Settings, name: bytes): bytes
    requires name in SHARED_NAMES
  {
    if name == "issuerUrl" then s.issuerURL
    else if name == "clientId" then s.clientID
    else if name == "jwksUrl" then s.jwksURL
    else if name == "workloadIssuerUrl" then s.workloadIssuerURL
    else if name == "groupsClaim" then s.groupsClaim
    else if name == "iframeIssuerUrl" then s.iframeIssuerURL
    else s.coreURL
  }

  /** What is on offer: the recognised names whose field is not empty, each with its own field. */
  lemma OnOffer(s: Settings, name: bytes)
    ensures name in AsMap(s) <==> name in SHARED_NAMES && Setting(s, name) != []
    ensures name in AsMap(s) ==> AsMap(s)[name] == Setting(s, name)
  {
    var m := Add(map[], "issuerUrl", s.issuerURL);
    Added(map[], "issuerUrl", s.issuerURL, name);
    Added(m, "clientId", s.clientID, name);
    m := Add(m, "clientId", s.clientID);
    Added(m, "jwksUrl", s.jwksURL, name);
    m := Add(m, "jwksUrl", s.jwksURL);
    Added(m, "workloadIssuerUrl", s.workloadIssuerURL, name);
    m := Add(m, "workloadIssuerUrl", s.workloadIssuerURL);
    Added(m, "groupsClaim", s.groupsClaim, name);
    m := Add(m, "groupsClaim", s.groupsClaim);
    Added(m, "iframeIssuerUrl", s.iframeIssuerURL, name);
    m := Add(m, "iframeIssuerUrl", s.iframeIssuerURL);
    Added(m, "coreUrl", s.coreURL, name);
  }

  lemma Added(m: map<bytes, bytes>, key: bytes, value: bytes, name: bytes)
    ensures name == key && value != [] ==> name in Add(m, key, value) && Add(m, key, value)[name] == value
    ensures name != key ==>
              && (name in Add(m, key, value) <==> name in m)
              && (name in m ==> Add(m, key, value)[name] == m[name])
    ensures name == key && value == [] ==> (name in Add(m, key, value) <==> name in m)
  {
  }

  predicate Wanted(s: Settings, mapping: map<bytes, bytes>, name: bytes)
  {
    name in mapping && name in SHARED_NAMES && Setting(s, name) != []
  }

  lemma PlanOffers(s: Settings, mapping: map<bytes, bytes>, name: bytes)
    ensures var plan := Plan(AsMap(s), mapping);
            && Planned(plan) && plan.Keys <= mapping.Keys
            && (name in plan <==> Wanted(s, mapping, name))
            && (name in plan ==> plan[name] == Target(Split(mapping[name], '.'), Setting(s, name)))
  {
    OnOffer(s, name);
  }

  lemma SettledExactly(u: Tree, way: Path)
    ensures HasLeaf(u, way) <==> Settled(u, way)
  {
    if i :| 0 < i < |way| && way[..i] in u && u[way[..i]].Leaf? { assert way[..i] < way; }
    if p :| p in u && [] < p < way && u[p] != Branch { assert p == way[..|p|]; }
  }

  lemma OpenedAndHeld(s: Settings, mapping: map<bytes, bytes>, t: Tree, u: Tree, n: bytes)
    requires WellFormed(t)
    requires var plan := Plan(AsMap(s), mapping); n in plan && Gap(plan, t, n) && Holds(plan, u, n)
    ensures Wanted(s, mapping, n) && Reported(s, mapping, t, u, n)
  {
    PlanOffers(s, mapping, n);
    SettledExactly(t, Split(mapping[n], '.'));
  }

  /** The laws for the plan that mergeIdentitySettings runs, for every tree and iteration order: the
      caller's entries stay; a name is reported only if it is recognised, has a value and was open, and
      its annotated path then holds exactly that value; every recognised name with a value ends up
      present; a second merge adds nothing; and another order gives the same tree and report when the
      wanted paths that were open are incomparable. */
  lemma MergeLaws(s: Settings, mapping: map<bytes, bytes>, t: Tree, order: seq<bytes>, again: seq<bytes>)
    requires WellFormed(t) && IsOrder(mapping.Keys, order) && IsOrder(mapping.Keys, again)
    ensures var plan := Plan(AsMap(s), mapping);
            var r := FillAll(plan, Outcome(t, []), order);
            && Extends(t, r.tree)
            && (forall n <- r.merged :: Wanted(s, mapping, n) && Reported(s, mapping, t, r.tree, n))
            && (forall n :: Wanted(s, mapping, n) ==> Settled(r.tree, Split(mapping[n], '.')))
            && FillAll(plan, Outcome(r.tree, []), again) == Outcome(r.tree, [])
            && (Incomparable(Open(plan, t)) ==> SameMerge(plan, t, order, again))
  {
    var plan := Plan(AsMap(s), mapping);
    PlanOffers(s, mapping, []);
    MergeFillsGaps(plan, t, order);
    OrderMembers(mapping.Keys, order);
    SecondMergeAddsNothing(plan, mapping.Keys, t, order, again);
    var r := FillAll(plan, Outcome(t, []), order);
    forall n | n in r.merged ensures Wanted(s, mapping, n) && Reported(s, mapping, t, r.tree, n) { OpenedAndHeld(s, mapping, t, r.tree, n); }
    forall n | Wanted(s, mapping, n) ensures Settled(r.tree, Split(mapping[n], '.')) {
      PlanOffers(s, mapping, n);
      SettledExactly(r.tree, Split(mapping[n], '.'));
    }
    if Incomparable(Open(plan, t)) { OrderFreeAt(plan, mapping.Keys, t); }
  }

  ghost predicate Reported(s: Settings, mapping: map<bytes, bytes>, t: Tree, u: Tree, n: bytes)
    requires Wanted(s, mapping, n)
  {
    var way := Split(mapping[n], '.');
    && way !in t && (forall p <- t :: p < way ==> t[p] == Branch)
    && way in u && u[way] == Leaf(Str(Setting(s, n)))
  }

  /** Something is at the path, or a value that is not a map is on the way to it. */
  ghost predicate Settled(u: Tree, way: Path)
  {
    way in u || exists p <- u :: [] < p < way && u[p] != Branch
  }
}
