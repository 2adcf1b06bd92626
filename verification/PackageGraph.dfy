/**
 The layered order of the package graph: packages of one layer are those whose longest dependency chain has one length,
 and within a layer the caller's group order and the names decide.
 */
module PackageGraph {
  import opened Wrappers
  import opened Digraph

  datatype Package = Package(short: string, name: string, group: string, rel: string, deps: seq<string>)

  type Packages = map<string, Package>

  /** The packages by short name; a later package of the same name replaces an earlier one. */
  function ByShort(packages: seq<Package>): Packages
    decreases packages
  {
    if packages == [] then map[]
    else
      var last := packages[|packages| - 1];
      ByShort(packages[..|packages| - 1])[last.short := last]
  }

  function GraphOf(m: Packages): Graph {
    map x | x in m :: m[x].deps
  }

  // ---- Comparing packages ------------------------------------------------------------------------------------------

  const MAX_SAFE_INTEGER: int := 9007199254740991

  /** The collation of names: any strict total order. */
  ghost predicate StrictTotalOrder(less: (string, string) -> bool) {
    && (forall a :: !less(a, a))
    && (forall a, b, c {:trigger less(a, b), less(b, c)} | less(a, b) && less(b, c) :: less(a, c))
    && (forall a, b {:trigger less(a, b)} | a != b && !less(a, b) :: less(b, a))
  }

  function IndexOf(s: seq<string>, x: string, i: nat): int
    requires i <= |s|
    decreases |s| - i
  {
    if i == |s| then -1 else if s[i] == x then i else IndexOf(s, x, i + 1)
  }

  function GroupRank(group: string, groupOrder: seq<string>): int {
    var i := IndexOf(groupOrder, group, 0);
    if i == -1 then MAX_SAFE_INTEGER else i
  }

  datatype Ordering = Ordering(groupOrder: seq<string>, less: (string, string) -> bool)

  predicate Before(o: Ordering, a: Package, b: Package) {
    var normA, normB := GroupRank(a.group, o.groupOrder), GroupRank(b.group, o.groupOrder);
    if normA != normB then normA < normB
    else if a.group != b.group then o.less(a.group, b.group)
    else o.less(a.short, b.short)
  }

  lemma BeforeIsTotalOrder(o: Ordering, a: Package, b: Package, c: Package)
    requires StrictTotalOrder(o.less)
    ensures !Before(o, a, a) && !(Before(o, a, b) && Before(o, b, a))
    ensures Before(o, a, b) && Before(o, b, c) ==> Before(o, a, c)
    ensures a.short != b.short ==> Before(o, a, b) || Before(o, b, a)
  {}

  // ---- Layers ------------------------------------------------------------------------------------------------------

  /** The packages that n rounds place: those whose dependencies are all placed by the rounds before. */
  function Placed(g: Graph, n: nat): set<string> {
    if n == 0 then {} else set x | x in g && forall d | d in g[x] :: d in Placed(g, n - 1)
  }

  lemma {:induction false} PlacedGrows(g: Graph, n: nat, m: nat)
    requires n <= m
    ensures Placed(g, n) <= Placed(g, m)
    decreases n
  {
    if n > 0 {
      PlacedGrows(g, n - 1, m - 1);
    }
  }

  lemma {:induction false} PlacedMeansBoundedChains(g: Graph, x: string, n: nat, w: seq<string>)
    requires x in Placed(g, n) && Walk(g, w) && w[0] == x
    ensures |w| <= n && w[|w| - 1] in Placed(g, n - |w| + 1) && w[|w| - 1] in g
    decreases n
  {
    if |w| > 1 {
      assert Edge(g, w[0], w[1]);
      WalkSuffix(g, w, 1);
      PlacedMeansBoundedChains(g, w[1], n - 1, w[1..]);
    }
  }

  ghost predicate BoundedChains(g: Graph, x: string, n: nat) {
    forall w {:trigger Walk(g, w)} | Walk(g, w) && w[0] == x :: |w| <= n && w[|w| - 1] in g
  }

  lemma {:induction false} BoundedChainsArePlaced(g: Graph, x: string, n: nat)
    requires BoundedChains(g, x, n)
    ensures x in Placed(g, n)
    decreases n
  {
    assert Walk(g, [x]);
    forall d | d in g[x] ensures d in Placed(g, n - 1) {
      forall w | Walk(g, w) && w[0] == d ensures |w| <= n - 1 && w[|w| - 1] in g {
        var longer := [x] + w;
        assert Edge(g, x, d);
        forall i | 0 <= i < |longer| - 1 ensures Edge(g, longer[i], longer[i + 1]) {
          if i > 0 {
            assert Edge(g, w[i - 1], w[i]);
          }
        }
        assert Walk(g, longer);
      }
      BoundedChainsArePlaced(g, d, n - 1);
    }
  }

  /**
   n rounds place a package exactly when no dependency chain from it is longer than n or leads to an absent package.
   */
  lemma PlacedExactlyWhenChainsAreBounded(g: Graph, x: string, n: nat)
    ensures x in Placed(g, n) <==> BoundedChains(g, x, n)
  {
    if x in Placed(g, n) {
      forall w | Walk(g, w) && w[0] == x ensures |w| <= n && w[|w| - 1] in g {
        PlacedMeansBoundedChains(g, x, n, w);
      }
    }
    if BoundedChains(g, x, n) {
      BoundedChainsArePlaced(g, x, n);
    }
  }

  /** Round n, counted from 0, is the one that places the package. */
  ghost predicate InLayer(g: Graph, x: string, n: nat) {
    x in Placed(g, n + 1) && x !in Placed(g, n)
  }

  ghost function Layer(g: Graph, x: string): nat {
    if n: nat :| InLayer(g, x, n) then n else 0
  }

  lemma LayerIs(g: Graph, x: string, n: nat)
    requires InLayer(g, x, n)
    ensures Layer(g, x) == n
  {
    var m := Layer(g, x);
    assert InLayer(g, x, m);
    if m < n {
      PlacedGrows(g, m + 1, n);
    } else if n < m {
      PlacedGrows(g, n + 1, m);
    }
  }

  /** A layer is the length of the longest dependency chain below its packages. */
  lemma LayerIsLongestChain(g: Graph, x: string, n: nat) returns (longest: seq<string>)
    requires InLayer(g, x, n)
    ensures Walk(g, longest) && longest[0] == x && |longest| == n + 1
    ensures forall w {:trigger Walk(g, w)} | Walk(g, w) && w[0] == x :: |w| <= n + 1
  {
    PlacedExactlyWhenChainsAreBounded(g, x, n + 1);
    PlacedExactlyWhenChainsAreBounded(g, x, n);
    longest :| Walk(g, longest) && longest[0] == x && !(|longest| <= n && longest[|longest| - 1] in g);
  }

  // ---- Packages that cannot be placed ------------------------------------------------------------------------------

  /** A chain of dependencies from x to an absent package, or back to a package it passed. */
  ghost predicate DeadEnd(g: Graph, x: string, w: seq<string>) {
    Walk(g, w) && w[0] == x && (w[|w| - 1] !in g || exists i | 0 <= i < |w| - 1 :: w[i] == w[|w| - 1])
  }

  ghost predicate Doomed(g: Graph, x: string) {
    exists w :: DeadEnd(g, x, w)
  }

  lemma {:induction false} PlacedIsOnNoCycle(g: Graph, w: seq<string>, n: nat)
    requires ClosedWalk(g, w)
    ensures w[0] !in Placed(g, n)
    decreases n
  {
    if w[0] in Placed(g, n) {
      PlacedMeansBoundedChains(g, w[0], n, w);
      PlacedIsOnNoCycle(g, w, n - |w| + 1);
    }
  }

  lemma PlacedIsNotDoomed(g: Graph, x: string, n: nat, w: seq<string>)
    requires x in Placed(g, n)
    ensures !DeadEnd(g, x, w)
  {
    if DeadEnd(g, x, w) {
      PlacedMeansBoundedChains(g, x, n, w);
      var i :| 0 <= i < |w| - 1 && w[i] == w[|w| - 1];
      WalkPrefix(g, w, i + 1);
      PlacedMeansBoundedChains(g, x, n, w[..i + 1]);
      WalkSuffix(g, w, i);
      PlacedIsOnNoCycle(g, w[i..], n - i);
    }
  }

  /** Packages of which each has a dependency among them or absent all run into a dead end. */
  ghost predicate Stuck(g: Graph, names: set<string>) {
    forall x | x in names :: x in g && exists d :: d in g[x] && (d in names || d !in g)
  }

  ghost predicate Visits(path: seq<string>, seen: set<string>) {
    && (forall i | 0 <= i < |path| :: path[i] in seen)
    && (forall x | x in seen :: exists i | 0 <= i < |path| :: path[i] == x)
  }

  lemma {:induction false} StuckIsDoomed(g: Graph, names: set<string>, path: seq<string>, seen: set<string>)
    requires Stuck(g, names) && Walk(g, path) && Visits(path, seen) && seen <= names
    ensures Doomed(g, path[0])
    decreases |names - seen|
  {
    var x := path[|path| - 1];
    var d :| d in g[x] && (d in names || d !in g);
    var w := path + [d];
    assert Edge(g, x, d);
    WalkExtends(g, path, d);
    if d !in g {
      assert DeadEnd(g, path[0], w);
    } else if d in seen {
      var i :| 0 <= i < |path| && path[i] == d;
      assert w[i] == d == w[|w| - 1];
      assert DeadEnd(g, path[0], w);
    } else {
      VisitsOneMore(path, seen, d);
      assert names - (seen + {d}) < names - seen by {
        assert d in names - seen;
      }
      SubsetIsSmaller(names - (seen + {d}), names - seen);
      StuckIsDoomed(g, names, w, seen + {d});
      assert w[0] == path[0];
    }
  }

  lemma VisitsOneMore(path: seq<string>, seen: set<string>, d: string)
    requires Visits(path, seen)
    ensures Visits(path + [d], seen + {d})
  {
    var w := path + [d];
    forall x | x in seen + {d} ensures exists i | 0 <= i < |w| :: w[i] == x {
      if x == d {
        assert w[|path|] == x;
      } else {
        var i :| 0 <= i < |path| && path[i] == x;
        assert w[i] == x;
      }
    }
  }

  lemma SubsetIsSmaller<T>(a: set<T>, b: set<T>)
    requires a < b
    ensures |a| < |b|
  {
    assert b == a + (b - a);
  }

  // ---- The order ---------------------------------------------------------------------------------------------------

  ghost predicate Precedes(g: Graph, o: Ordering, a: Package, b: Package) {
    Layer(g, a.short) < Layer(g, b.short) || (Layer(g, a.short) == Layer(g, b.short) && Before(o, a, b))
  }

  ghost predicate Ordered(g: Graph, o: Ordering, out: seq<Package>) {
    forall j, k | 0 <= j < k < |out| :: Precedes(g, o, out[j], out[k])
  }

  ghost function Shorts(s: seq<Package>): set<string> {
    set k | 0 <= k < |s| :: s[k].short
  }

  ghost predicate OfMap(m: Packages, s: seq<Package>) {
    forall k | 0 <= k < |s| :: s[k].short in m && m[s[k].short] == s[k]
  }

  /** Every package once, each layer after the layers below it, and each layer sorted. */
  ghost predicate LayeredOrder(m: Packages, o: Ordering, out: seq<Package>) {
    && OfMap(m, out) && Shorts(out) == m.Keys && Ordered(GraphOf(m), o, out)
    && forall x | x in m :: InLayer(GraphOf(m), x, Layer(GraphOf(m), x))
  }

  ghost predicate Sorted(o: Ordering, s: seq<Package>) {
    forall j, k | 0 <= j < k < |s| :: Before(o, s[j], s[k])
  }

  ghost predicate AllBefore(m: Packages, o: Ordering, s: seq<Package>, names: set<string>)
    requires names <= m.Keys
  {
    forall j, x | 0 <= j < |s| && x in names :: Before(o, s[j], m[x])
  }

  predicate IsLeast(m: Packages, o: Ordering, names: set<string>, x: string)
    requires names <= m.Keys && x in names
  {
    forall y | y in names :: y == x || Before(o, m[x], m[y])
  }

  /** The given names in the order in which the packages list them first. */
  function Listed(packages: seq<Package>, names: set<string>): seq<string> {
    if packages == [] then []
    else
      var x := packages[0].short;
      (if x in names then [x] else []) + Listed(packages[1..], names - {x})
  }

  ghost function DoomedNames(m: Packages): set<string> {
    set x | x in m && Doomed(GraphOf(m), x)
  }

  /**
   Every package once in layered order, or an error that lists exactly the packages that depend, transitively, on a
   cycle or on an absent package; there is an error exactly when there are such packages.
   */
  ghost predicate SortResult(packages: seq<Package>, o: Ordering, r: Result<seq<Package>, seq<string>>) {
    var m := ByShort(packages);
    match r
    case Ok(out) => LayeredOrder(m, o, out) && DoomedNames(m) == {}
    case Err(names) => names != [] && names == Listed(packages, DoomedNames(m))
  }

  /** Each of the names is listed once. */
  lemma {:induction false} ListedOnce(packages: seq<Package>, names: set<string>)
    requires names <= Shorts(packages)
    ensures multiset(Listed(packages, names)) == multiset(names)
    decreases packages
  {
    if packages != [] {
      var x, rest := packages[0].short, packages[1..];
      forall y | y in names - {x} ensures y in Shorts(rest) {
        var k :| 0 <= k < |packages| && packages[k].short == y;
        assert rest[k - 1].short == y;
      }
      ListedOnce(rest, names - {x});
    }
  }

  lemma ListedIfAny(packages: seq<Package>, names: set<string>)
    requires names <= Shorts(packages)
    ensures Listed(packages, names) == [] <==> names == {}
  {
    ListedOnce(packages, names);
    if x :| x in names {
      assert x in multiset(names);
    }
    assert |multiset(Listed(packages, names))| == |Listed(packages, names)|;
  }

  /** A name listed before another one heads a package that comes before every package of that other name. */
  lemma {:induction false} ListedInOrder(packages: seq<Package>, names: set<string>, i: nat, j: nat)
    returns (first: nat)
    requires i < j < |Listed(packages, names)|
    ensures first < |packages| && packages[first].short == Listed(packages, names)[i]
    ensures forall k | 0 <= k <= first :: packages[k].short != Listed(packages, names)[j]
    decreases packages
  {
    var x, rest := packages[0].short, Listed(packages[1..], names - {packages[0].short});
    var skipped := if x in names then 1 else 0;
    ListedAreNames(packages[1..], names - {x});
    assert Listed(packages, names)[j] == rest[j - skipped];
    if i < skipped {
      first := 0;
    } else {
      first := ListedInOrder(packages[1..], names - {x}, i - skipped, j - skipped);
      first := first + 1;
    }
  }

  lemma ListedAreNames(packages: seq<Package>, names: set<string>)
    ensures forall i | 0 <= i < |Listed(packages, names)| :: Listed(packages, names)[i] in names
  {}

  /** The packages of a set, sorted: what filtering and sorting the values of a map yields. */
  method SortedPackages(m: Packages, names: set<string>, o: Ordering) returns (s: seq<Package>)
    requires StrictTotalOrder(o.less) && OfKeys(m) && names <= m.Keys
    ensures OfMap(m, s) && Shorts(s) == names && Sorted(o, s)
  {
    hide *;
    s := [];
    var left := names;
    NothingSorted(m, o, names);
    while left != {}
      invariant left <= names && OfMap(m, s) && Shorts(s) == names - left
      invariant Sorted(o, s) && AllBefore(m, o, s, left)
      decreases |left|
    {
      LeastExists(m, left, o);
      var x :| x in left && IsLeast(m, o, left, x);
      ShortsGrow(s, m[x]);
      OfMapGrows(m, s, x);
      SortedGrows(m, o, s, left, x);
      s := s + [m[x]];
      left := left - {x};
    }
  }

  lemma NothingSorted(m: Packages, o: Ordering, names: set<string>)
    requires names <= m.Keys
    ensures OfMap(m, []) && Shorts([]) == {} && Sorted(o, []) && AllBefore(m, o, [], names)
  {}

  lemma OfMapGrows(m: Packages, s: seq<Package>, x: string)
    requires OfMap(m, s) && OfKeys(m) && x in m
    ensures OfMap(m, s + [m[x]]) && m[x].short == x
  {}

  lemma SortedGrows(m: Packages, o: Ordering, s: seq<Package>, left: set<string>, x: string)
    requires left <= m.Keys && x in left && Sorted(o, s) && AllBefore(m, o, s, left) && IsLeast(m, o, left, x)
    ensures Sorted(o, s + [m[x]]) && AllBefore(m, o, s + [m[x]], left - {x})
  {
    hide Before;
  }

  ghost predicate OfKeys(m: Packages) {
    forall x | x in m :: m[x].short == x
  }

  lemma ShortsGrow(s: seq<Package>, p: Package)
    ensures Shorts(s + [p]) == Shorts(s) + {p.short}
  {
    var t := s + [p];
    assert t[|s|] == p;
    assert forall k | 0 <= k < |s| :: t[k] == s[k];
    forall x | x in Shorts(s) + {p.short} ensures x in Shorts(t) {
      if x in Shorts(s) {
        var k :| 0 <= k < |s| && s[k].short == x;
        assert t[k].short == x;
      }
    }
  }

  lemma {:induction false} LeastExists(m: Packages, names: set<string>, o: Ordering)
    requires StrictTotalOrder(o.less) && OfKeys(m) && names <= m.Keys && names != {}
    ensures exists x :: x in names && IsLeast(m, o, names, x)
    decreases |names|
  {
    hide Before;
    var a :| a in names;
    var rest := names - {a};
    if rest == {} {
      assert forall y | y in names :: y == a || y in rest;
      assert IsLeast(m, o, names, a);
    } else {
      LeastExists(m, rest, o);
      var x :| x in rest && IsLeast(m, o, rest, x);
      forall y ensures Before(o, m[a], m[x]) && y in rest ==> Before(o, m[a], m[y]) {
        if y in rest {
          BeforeIsTotalOrder(o, m[a], m[x], m[y]);
        }
      }
      BeforeIsTotalOrder(o, m[a], m[x], m[x]);
      var least := if Before(o, m[a], m[x]) then a else x;
      assert forall y | y in names :: y == a || y in rest;
      assert IsLeast(m, o, names, least);
    }
  }

  // ---- Sorting by layers -------------------------------------------------------------------------------------------

  lemma OrderedGrows(m: Packages, o: Ordering, out: seq<Package>, ready: seq<Package>, n: nat)
    requires Ordered(GraphOf(m), o, out) && Shorts(out) == Placed(GraphOf(m), n)
    requires Sorted(o, ready) && Shorts(ready) == Placed(GraphOf(m), n + 1) - Placed(GraphOf(m), n)
    ensures Ordered(GraphOf(m), o, out + ready)
  {
    hide Before, Placed, GraphOf;
    var g, s := GraphOf(m), out + ready;
    forall k: nat | k < |out| ensures Layer(g, out[k].short) < n {
      assert out[k].short in Shorts(out);
      PlacedInSomeLayer(g, out[k].short, n);
    }
    forall k: nat | k < |ready| ensures Layer(g, ready[k].short) == n {
      assert ready[k].short in Shorts(ready);
      LayerIs(g, ready[k].short, n);
    }
    forall j, k | 0 <= j < k < |s| ensures Precedes(g, o, s[j], s[k]) {
      if k < |out| {
        assert Precedes(g, o, out[j], out[k]);
      } else if j >= |out| {
        assert Before(o, ready[j - |out|], ready[k - |out|]);
      }
    }
  }

  lemma {:induction false} PlacedInSomeLayer(g: Graph, x: string, n: nat)
    requires x in Placed(g, n)
    ensures Layer(g, x) < n && InLayer(g, x, Layer(g, x))
    decreases n
  {
    if x in Placed(g, n - 1) {
      PlacedInSomeLayer(g, x, n - 1);
    } else {
      LayerIs(g, x, n - 1);
    }
  }

  lemma {:induction false} ByShortNames(packages: seq<Package>)
    ensures ByShort(packages).Keys == Shorts(packages)
    decreases packages
  {
    if packages != [] {
      var n := |packages| - 1;
      ByShortNames(packages[..n]);
      ShortsGrow(packages[..n], packages[n]);
      assert packages[..n] + [packages[n]] == packages;
    }
  }

  lemma ByShortIsKeyed(packages: seq<Package>)
    ensures OfKeys(ByShort(packages))
  {}

  lemma NothingOrdered(m: Packages, o: Ordering)
    ensures OfMap(m, []) && Shorts([]) == {} && Ordered(GraphOf(m), o, []) && Placed(GraphOf(m), 0) == {}
  {}

  lemma OfMapJoins(m: Packages, a: seq<Package>, b: seq<Package>)
    requires OfMap(m, a) && OfMap(m, b)
    ensures OfMap(m, a + b)
  {}

  lemma {:induction false} ShortsJoin(a: seq<Package>, b: seq<Package>)
    ensures Shorts(a + b) == Shorts(a) + Shorts(b)
    decreases b
  {
    if b == [] {
      assert a + b == a;
    } else {
      var n := |b| - 1;
      ShortsJoin(a, b[..n]);
      ShortsGrow(a + b[..n], b[n]);
      ShortsGrow(b[..n], b[n]);
      assert a + b[..n] + [b[n]] == a + b && b[..n] + [b[n]] == b;
    }
  }

  lemma UnplacedAreStuck(g: Graph, n: nat)
    requires Placed(g, n + 1) == Placed(g, n)
    ensures Stuck(g, g.Keys - Placed(g, n))
  {
    var names := g.Keys - Placed(g, n);
    forall x | x in names ensures x in g && exists d :: d in g[x] && (d in names || d !in g) {
      assert x !in Placed(g, n + 1);
      var d :| d in g[x] && d !in Placed(g, n);
      assert d in names || d !in g;
    }
  }

  /** The packages no round can place any more. */
  lemma UnplacedAreDoomed(g: Graph, n: nat)
    requires Placed(g, n + 1) == Placed(g, n)
    ensures forall x | x in g :: Doomed(g, x) <==> x !in Placed(g, n)
  {
    hide Placed, Stuck, DeadEnd, Walk;
    var names := g.Keys - Placed(g, n);
    UnplacedAreStuck(g, n);
    forall x | x in g ensures Doomed(g, x) <==> x !in Placed(g, n) {
      if x in names {
        OneStep(g, x);
        StuckIsDoomed(g, names, [x], {x});
      } else {
        forall w ensures !DeadEnd(g, x, w) {
          PlacedIsNotDoomed(g, x, n, w);
        }
      }
    }
  }

  lemma OneStep(g: Graph, x: string)
    ensures Walk(g, [x]) && Visits([x], {x})
  {
    assert [x][0] == x;
  }

  lemma PlacedAreNotDoomed(g: Graph, n: nat)
    ensures forall x | x in Placed(g, n) :: !Doomed(g, x)
  {
    forall x, w | x in Placed(g, n) ensures !DeadEnd(g, x, w) {
      PlacedIsNotDoomed(g, x, n, w);
    }
  }

  lemma NextLayer(m: Packages, n: nat, placed: set<string>)
    requires placed == Placed(GraphOf(m), n)
    ensures
      var remaining := m - placed;
      var names := set x | x in remaining && forall d | d in remaining[x].deps :: d in placed;
      && names <= m.Keys && names !! placed && Placed(GraphOf(m), n + 1) == placed + names
  {
    PlacedGrows(GraphOf(m), n, n + 1);
  }

  lemma ShortsOfNone(s: seq<Package>)
    ensures Shorts(s) == {} <==> s == []
  {
    if s != [] {
      assert s[0].short in Shorts(s);
    }
  }

  lemma SortFailed(m: Packages, o: Ordering, n: nat)
    requires Placed(GraphOf(m), n + 1) == Placed(GraphOf(m), n) && m - Placed(GraphOf(m), n) != map[]
    ensures DoomedNames(m) == (m - Placed(GraphOf(m), n)).Keys != {}
  {
    hide Placed, Doomed;
    UnplacedAreDoomed(GraphOf(m), n);
    assert exists x :: x in m - Placed(GraphOf(m), n);
  }

  lemma SortEnded(m: Packages, o: Ordering, out: seq<Package>, n: nat)
    requires OfMap(m, out) && Shorts(out) == Placed(GraphOf(m), n) && Ordered(GraphOf(m), o, out)
    requires m - Placed(GraphOf(m), n) == map[]
    ensures LayeredOrder(m, o, out) && DoomedNames(m) == {}
  {
    hide Placed, Doomed, Ordered, OfMap, Shorts;
    PlacedAreNotDoomed(GraphOf(m), n);
    forall x | x in m ensures x in Placed(GraphOf(m), n) && InLayer(GraphOf(m), x, Layer(GraphOf(m), x)) {
      assert x !in m - Placed(GraphOf(m), n);
      PlacedInSomeLayer(GraphOf(m), x, n);
    }
    forall x | x in Placed(GraphOf(m), n) ensures x in m {
      PlacedIsPresent(m, n, x);
    }
  }

  lemma PlacedIsPresent(m: Packages, n: nat, x: string)
    requires x in Placed(GraphOf(m), n)
    ensures x in m
  {}

  lemma SortResults(packages: seq<Package>, o: Ordering)
    ensures
      var m := ByShort(packages);
      && (DoomedNames(m) != {} ==> SortResult(packages, o, Err(Listed(packages, DoomedNames(m)))))
      && forall out | LayeredOrder(m, o, out) && DoomedNames(m) == {} :: SortResult(packages, o, Ok(out))
  {
    hide LayeredOrder, Doomed, ByShort;
    var m := ByShort(packages);
    ByShortNames(packages);
    ListedIfAny(packages, DoomedNames(m));
  }

  method TopoSort(packages: seq<Package>, o: Ordering) returns (r: Result<seq<Package>, seq<string>>)
    requires StrictTotalOrder(o.less)
    ensures SortResult(packages, o, r)
  {
    hide *;
    var m := ByShort(packages);
    ghost var g := GraphOf(m);
    ByShortIsKeyed(packages);
    NothingOrdered(m, o);
    var remaining := m;
    var placed: set<string> := {};
    var out: seq<Package> := [];
    ghost var n: nat := 0;
    while remaining != map[]
      invariant placed == Placed(g, n) && remaining == m - placed
      invariant OfMap(m, out) && Shorts(out) == placed && Ordered(g, o, out)
      decreases m.Keys - placed
    {
      var names := set x | x in remaining && forall d | d in remaining[x].deps :: d in placed;
      NextLayer(m, n, placed);
      var ready := SortedPackages(m, names, o);
      ShortsOfNone(ready);
      if |ready| == 0 {
        SortFailed(m, o, n);
        SortResults(packages, o);
        return Err(Listed(packages, remaining.Keys));
      }
      OfMapJoins(m, out, ready);
      ShortsJoin(out, ready);
      OrderedGrows(m, o, out, ready, n);
      ghost var before, sorted := placed, out;
      assert ready[..0] == [];
      ShortsOfNone(ready[..0]);
      for k := 0 to |ready|
        invariant out == sorted + ready[..k]
        invariant placed == before + Shorts(ready[..k]) && remaining == m - placed
      {
        var pkg := ready[k];
        assert ready[..k + 1] == ready[..k] + [pkg];
        ShortsGrow(ready[..k], pkg);
        out := out + [pkg];
        placed := placed + {pkg.short};
        remaining := remaining - {pkg.short};
      }
      assert ready[..|ready|] == ready;
      n := n + 1;
    }
    SortEnded(m, o, out, n);
    SortResults(packages, o);
    r := Ok(out);
  }

  // ---- What a layered order is good for ----------------------------------------------------------------------------

  /** The first of the two groups in the caller's order is a's. */
  ghost predicate ListedFirst(order: seq<string>, a: string, b: string) {
    exists i :: 0 <= i < |order| && order[i] == a && forall j | 0 <= j <= i :: order[j] != b
  }

  lemma {:induction false} IndexOfIs(s: seq<string>, x: string, i: nat)
    requires i <= |s|
    ensures
      var k := IndexOf(s, x, i);
      if k == -1 then forall j | i <= j < |s| :: s[j] != x
      else i <= k < |s| && s[k] == x && forall j | i <= j < k :: s[j] != x
    decreases |s| - i
  {
    if i < |s| && s[i] != x {
      IndexOfIs(s, x, i + 1);
    }
  }

  /** Which package the comparison puts first, told by the places of the groups in the caller's order. */
  lemma ComparedByGroups(o: Ordering, a: Package, b: Package)
    requires |o.groupOrder| <= 9007199254740991
    ensures ListedFirst(o.groupOrder, a.group, b.group) ==> Before(o, a, b)
    ensures a.group !in o.groupOrder && b.group !in o.groupOrder && a.group != b.group && o.less(a.group, b.group) ==>
              Before(o, a, b)
    ensures a.group == b.group && o.less(a.short, b.short) ==> Before(o, a, b)
  {
    IndexOfIs(o.groupOrder, a.group, 0);
    IndexOfIs(o.groupOrder, b.group, 0);
  }

  /**
   Where two packages stand in the result. The one with the shorter chains comes first. In one layer the group the
   caller lists first decides, a group that is listed coming before one that is not; between two groups that are not
   listed their collation, and within one group that of the names.
   */
  lemma PlacesInTheOrder(packages: seq<Package>, o: Ordering, out: seq<Package>, x: nat, y: nat, n: nat, m: nat)
    requires StrictTotalOrder(o.less) && |o.groupOrder| <= 9007199254740991
    requires SortResult(packages, o, Ok(out)) && x < |out| && y < |out|
    requires InLayer(GraphOf(ByShort(packages)), out[x].short, n)
    requires InLayer(GraphOf(ByShort(packages)), out[y].short, m)
    ensures n < m ==> x < y
    ensures n == m && ListedFirst(o.groupOrder, out[x].group, out[y].group) ==> x < y
    ensures n == m && out[x].group !in o.groupOrder && out[y].group !in o.groupOrder ==>
              out[x].group != out[y].group && o.less(out[x].group, out[y].group) ==> x < y
    ensures n == m && out[x].group == out[y].group && o.less(out[x].short, out[y].short) ==> x < y
  {
    var g := GraphOf(ByShort(packages));
    LayerIs(g, out[x].short, n);
    LayerIs(g, out[y].short, m);
    hide ByShort, InLayer, Layer, Before, DoomedNames, ListedFirst, StrictTotalOrder;
    ComparedByGroups(o, out[x], out[y]);
    NotBeforeItself(o, out[x], out[y]);
    assert y < x ==> Precedes(g, o, out[y], out[x]);
  }

  lemma NotBeforeItself(o: Ordering, a: Package, b: Package)
    requires StrictTotalOrder(o.less)
    ensures !Before(o, a, a) && !(Before(o, a, b) && Before(o, b, a))
    ensures ListedFirst(o.groupOrder, a.group, b.group) ==> a != b
    ensures (o.less(a.group, b.group) || o.less(a.short, b.short)) ==> a != b
  {
    BeforeIsTotalOrder(o, a, b, a);
  }

  /** Of several packages with one short name the last one counts. */
  lemma {:induction false} LastOfTheNameCounts(packages: seq<Package>, k: nat)
    requires k < |packages| && forall j | k < j < |packages| :: packages[j].short != packages[k].short
    ensures packages[k].short in ByShort(packages) && ByShort(packages)[packages[k].short] == packages[k]
    decreases packages
  {
    if k < |packages| - 1 {
      LastOfTheNameCounts(packages[..|packages| - 1], k);
    }
  }

  lemma EarlierDiffers(m: Packages, o: Ordering, a: seq<Package>, j: nat, k: nat)
    requires StrictTotalOrder(o.less) && LayeredOrder(m, o, a) && j < k < |a|
    ensures a[j].short != a[k].short
  {
    hide Layer, GraphOf, StrictTotalOrder, Before;
    assert Precedes(GraphOf(m), o, a[j], a[k]);
    BeforeIsTotalOrder(o, a[j], a[j], a[j]);
  }

  lemma LaterIsNotEarlier(m: Packages, o: Ordering, a: seq<Package>, j: nat, k: nat)
    requires StrictTotalOrder(o.less) && LayeredOrder(m, o, a) && j < |a| && k < |a| && a[j].short == a[k].short
    ensures j == k
  {
    hide *;
    if j < k {
      EarlierDiffers(m, o, a, j, k);
    } else if k < j {
      EarlierDiffers(m, o, a, k, j);
    }
  }

  /** Each dependency of a package is present and stands before it. */
  lemma DependenciesComeEarlier(m: Packages, o: Ordering, out: seq<Package>, k: nat, d: string)
    requires LayeredOrder(m, o, out) && k < |out| && d in out[k].deps
    ensures exists j :: 0 <= j < k && out[j].short == d
  {
    hide Before;
    var g, x := GraphOf(m), out[k].short;
    var n := Layer(g, x);
    assert InLayer(g, x, n) && d in g[x];
    PlacedInSomeLayer(g, d, n);
    assert d in Shorts(out);
    var j :| 0 <= j < |out| && out[j].short == d;
    assert k < j ==> Precedes(g, o, out[k], out[j]);
  }

  ghost predicate UniqueShorts(s: seq<Package>) {
    forall j, k | 0 <= j < k < |s| :: s[j].short != s[k].short
  }

  lemma {:induction false} ByShortOfUnique(s: seq<Package>)
    requires UniqueShorts(s)
    ensures OfMap(ByShort(s), s) && ByShort(s).Keys == Shorts(s)
    decreases s
  {
    if s != [] {
      var n := |s| - 1;
      ByShortOfUnique(s[..n]);
      ShortsGrow(s[..n], s[n]);
      assert s[..n] + [s[n]] == s;
      forall k | 0 <= k < |s| ensures s[k].short in ByShort(s) && ByShort(s)[s[k].short] == s[k] {
        if k < n {
          assert s[..n][k] == s[k];
        }
      }
    }
  }

  lemma {:induction false} CountIsOne(s: seq<Package>, p: Package)
    requires UniqueShorts(s)
    ensures multiset(s)[p] == if p in s then 1 else 0
    decreases s
  {
    if s != [] {
      var n := |s| - 1;
      CountIsOne(s[..n], p);
      assert s[..n] + [s[n]] == s;
      assert forall k | 0 <= k < n :: s[..n][k].short != s[n].short;
    }
  }

  /** When the short names differ, the layered order is a permutation of the packages. */
  lemma LayeredOrderIsPermutation(packages: seq<Package>, o: Ordering, out: seq<Package>)
    requires StrictTotalOrder(o.less) && UniqueShorts(packages) && LayeredOrder(ByShort(packages), o, out)
    ensures multiset(out) == multiset(packages)
  {
    hide StrictTotalOrder, Before, ByShort, Ordered;
    var m := ByShort(packages);
    ByShortOfUnique(packages);
    forall j: nat, k: nat | j < k < |out| ensures out[j].short != out[k].short {
      if out[j].short == out[k].short {
        LaterIsNotEarlier(m, o, out, j, k);
      }
    }
    forall p ensures multiset(out)[p] == multiset(packages)[p] {
      CountIsOne(out, p);
      CountIsOne(packages, p);
      SameMembers(m, out, packages, p);
      SameMembers(m, packages, out, p);
    }
  }

  lemma SameMembers(m: Packages, a: seq<Package>, b: seq<Package>, p: Package)
    requires OfMap(m, a) && OfMap(m, b) && Shorts(a) <= Shorts(b)
    ensures p in a ==> p in b
  {
    if p in a {
      var k :| 0 <= k < |a| && a[k] == p;
      assert p.short in Shorts(a);
      var j :| 0 <= j < |b| && b[j].short == p.short;
    }
  }

  // ---- The result depends on nothing but the packages --------------------------------------------------------------

  lemma {:induction false} SamePackagesFrom(m: Packages, o: Ordering, a: seq<Package>, b: seq<Package>, k: nat)
    requires StrictTotalOrder(o.less) && LayeredOrder(m, o, a) && LayeredOrder(m, o, b)
    requires k <= |a| && k <= |b| && a[..k] == b[..k]
    ensures a == b
    decreases |a| - k
  {
    hide Layer, GraphOf, StrictTotalOrder, Before;
    if k == |a| {
      if k < |b| {
        var i := PositionOf(m, o, a, b[k].short);
        assert b[i] == a[..k][i];
        LaterIsNotEarlier(m, o, b, i, k);
      }
    } else if k == |b| {
      var i := PositionOf(m, o, b, a[k].short);
      assert a[i] == b[..k][i];
      LaterIsNotEarlier(m, o, a, i, k);
    } else {
      NextIsSame(m, o, a, b, k);
      assert a[..k + 1] == a[..k] + [a[k]] && b[..k + 1] == b[..k] + [b[k]];
      SamePackagesFrom(m, o, a, b, k + 1);
    }
  }

  lemma PositionOf(m: Packages, o: Ordering, a: seq<Package>, x: string) returns (i: nat)
    requires LayeredOrder(m, o, a) && x in m
    ensures i < |a| && a[i].short == x && a[i] == m[x]
  {
    assert x in Shorts(a);
    i :| 0 <= i < |a| && a[i].short == x;
  }

  lemma NextIsSame(m: Packages, o: Ordering, a: seq<Package>, b: seq<Package>, k: nat)
    requires StrictTotalOrder(o.less) && LayeredOrder(m, o, a) && LayeredOrder(m, o, b)
    requires k < |a| && k < |b| && a[..k] == b[..k]
    ensures a[k] == b[k]
  {
    hide Layer, GraphOf, StrictTotalOrder, Before;
    var i := PositionOf(m, o, b, a[k].short);
    var j := PositionOf(m, o, a, b[k].short);
    if i < k {
      assert a[i] == b[..k][i];
      LaterIsNotEarlier(m, o, a, i, k);
    } else if j < k {
      assert b[j] == a[..k][j];
      LaterIsNotEarlier(m, o, b, j, k);
    } else if i > k && j > k {
      assert Precedes(GraphOf(m), o, b[k], b[i]) && Precedes(GraphOf(m), o, a[k], a[j]);
      BeforeIsTotalOrder(o, a[k], b[k], a[k]);
    }
  }

  /**
   The order is the same for every order in which packages with different short names are listed, and so are the names
   in an error, though not the order in which it lists them.
   */
  lemma InputOrderIsIrrelevant(ps: seq<Package>, qs: seq<Package>, o: Ordering,
                               r: Result<seq<Package>, seq<string>>, r': Result<seq<Package>, seq<string>>)
    requires StrictTotalOrder(o.less) && UniqueShorts(ps) && UniqueShorts(qs) && multiset(ps) == multiset(qs)
    requires SortResult(ps, o, r) && SortResult(qs, o, r')
    ensures r.Ok? ==> r == r'
    ensures r.Err? ==> r'.Err? && multiset(r.error) == multiset(r'.error)
  {
    SameMap(ps, qs);
    ByShortNames(ps);
    ByShortNames(qs);
    ListedOnce(ps, DoomedNames(ByShort(ps)));
    ListedOnce(qs, DoomedNames(ByShort(qs)));
    ListedIfAny(ps, DoomedNames(ByShort(ps)));
    ListedIfAny(qs, DoomedNames(ByShort(qs)));
    hide LayeredOrder, Doomed, ByShort, StrictTotalOrder;
    if r.Ok? && r'.Ok? {
      SamePackagesFromStart(ByShort(ps), o, r.value, r'.value);
    }
  }

  lemma SamePackagesFromStart(m: Packages, o: Ordering, a: seq<Package>, b: seq<Package>)
    requires StrictTotalOrder(o.less) && LayeredOrder(m, o, a) && LayeredOrder(m, o, b)
    ensures a == b
  {
    hide *;
    assert a[..0] == b[..0];
    SamePackagesFrom(m, o, a, b, 0);
  }

  lemma SameMap(ps: seq<Package>, qs: seq<Package>)
    requires UniqueShorts(ps) && UniqueShorts(qs) && multiset(ps) == multiset(qs)
    ensures ByShort(ps) == ByShort(qs)
  {
    ByShortOfUnique(ps);
    ByShortOfUnique(qs);
    hide ByShort;
    var m, n := ByShort(ps), ByShort(qs);
    forall x ensures x in m ==> x in n && n[x] == m[x] {
      KeptUnder(ps, qs, x);
    }
    forall x ensures x in n ==> x in m && m[x] == n[x] {
      KeptUnder(qs, ps, x);
    }
    EqualMaps(m, n);
  }

  lemma KeptUnder(ps: seq<Package>, qs: seq<Package>, x: string)
    requires OfMap(ByShort(ps), ps) && OfMap(ByShort(qs), qs) && ByShort(ps).Keys == Shorts(ps)
    requires multiset(ps) == multiset(qs)
    ensures x in ByShort(ps) ==> x in ByShort(qs) && ByShort(qs)[x] == ByShort(ps)[x]
  {
    hide ByShort;
    if x in ByShort(ps) {
      var k :| 0 <= k < |ps| && ps[k].short == x;
      assert ps[k] in multiset(ps);
      var j :| 0 <= j < |qs| && qs[j] == ps[k];
    }
  }
}
