/**
 The closure of a plugin's config type under the type names its declarations reference: a queue of demanded names, each
 resolved from the file that demands it, that either pastes declarations and records imports or records violations.
 */
module PasteClosure {
  import opened Wrappers
  import opened SourceTree

  /** A name demanded by a file. */
  type Item = Place

  datatype Resolved =
    | DeclaredIn(file: string)
    | Imported(imp: Import)
    | Unresolved
    | Fails(file: string)   // an unreadable file on the way
    | Endless               // relative imports of the name that lead around in a circle

  /**
   Follow package-local imports of a name to its declaration, or to the package import that brings it in. `trail` holds
   the files already followed; meeting one again is the unbounded recursion of the program.
   */
  function ResolveTypeName(t: Tree, file: string, name: string, trail: set<string>): Resolved
    decreases t.files.Keys - trail
  {
    if file !in t.files then Fails(file)
    else if file in trail then Endless
    else if name in t.files[file].types then DeclaredIn(file)
    else if name !in t.files[file].imports then Unresolved
    else
      var i := t.files[file].imports[name];
      if !StartsWithDot(i.specifier) then Imported(i)
      else if !EndsWithTs(i.specifier) || i.imported != name then Unresolved
      else ResolveTypeName(t, t.resolve(file, i.specifier), name, trail + {file})
  }

  function Resolve(t: Tree, item: Item): Resolved {
    ResolveTypeName(t, item.file, item.name, {})
  }

  /** The file a recursive call goes on to, if there is one. */
  function Follow(t: Tree, file: string, name: string): Option<string> {
    if file !in t.files || name in t.files[file].types || name !in t.files[file].imports then None
    else
      var i := t.files[file].imports[name];
      if StartsWithDot(i.specifier) && EndsWithTs(i.specifier) && i.imported == name then
        Some(t.resolve(file, i.specifier))
      else None
  }

  function Hops(t: Tree, file: string, name: string, n: nat): Option<string>
    decreases n
  {
    if n == 0 then Some(file)
    else match Follow(t, file, name) case None => None case Some(next) => Hops(t, next, name, n - 1)
  }

  /** The recursion as the program has it, without a trail; None when it needs more than the given number of calls. */
  function Unguarded(t: Tree, file: string, name: string, calls: nat): Option<Resolved>
    decreases calls
  {
    if calls == 0 then None
    else if file !in t.files then Some(Fails(file))
    else if name in t.files[file].types then Some(DeclaredIn(file))
    else if name !in t.files[file].imports then Some(Unresolved)
    else
      var i := t.files[file].imports[name];
      if !StartsWithDot(i.specifier) then Some(Imported(i))
      else if !EndsWithTs(i.specifier) || i.imported != name then Some(Unresolved)
      else Unguarded(t, t.resolve(file, i.specifier), name, calls - 1)
  }

  /** The import hops from a file lead around in a circle. */
  ghost predicate RunsInCircle(t: Tree, file: string, name: string) {
    exists i: nat, j: nat :: i < j && Hops(t, file, name, i).Some? && Hops(t, file, name, i) == Hops(t, file, name, j)
  }

  /** The import hops from a file lead to a path that cannot be read. */
  ghost predicate RunsIntoUnreadable(t: Tree, file: string, name: string) {
    exists i: nat :: Hops(t, file, name, i).Some? && Hops(t, file, name, i).value !in t.files
  }

  lemma {:induction false} ReturnsWhenHopsEnd(t: Tree, file: string, name: string, calls: nat)
    ensures Unguarded(t, file, name, calls).Some? <==> Hops(t, file, name, calls).None?
    decreases calls
  {
    hide StartsWithDot, EndsWithTs;
    if calls > 0 && Follow(t, file, name).Some? {
      ReturnsWhenHopsEnd(t, Follow(t, file, name).value, name, calls - 1);
    }
  }

  lemma {:induction false} MoreCallsAgree(t: Tree, file: string, name: string, calls: nat, more: nat)
    requires calls <= more && Unguarded(t, file, name, calls).Some?
    ensures Unguarded(t, file, name, more) == Unguarded(t, file, name, calls)
    decreases calls
  {
    hide StartsWithDot, EndsWithTs;
    if Follow(t, file, name).Some? {
      MoreCallsAgree(t, Follow(t, file, name).value, name, calls - 1, more - 1);
    }
  }

  lemma {:induction false} TrailedReturns(t: Tree, file: string, name: string, trail: set<string>) returns (calls: nat)
    requires ResolveTypeName(t, file, name, trail) != Endless
    ensures Unguarded(t, file, name, calls) == Some(ResolveTypeName(t, file, name, trail))
    decreases t.files.Keys - trail
  {
    calls := 0;
    if Follow(t, file, name).Some? {
      calls := TrailedReturns(t, Follow(t, file, name).value, name, trail + {file});
    }
    calls := calls + 1;
  }

  lemma {:induction false} HopsAdd(t: Tree, file: string, name: string, i: nat, j: nat)
    requires Hops(t, file, name, i).Some?
    ensures Hops(t, file, name, i + j) == Hops(t, Hops(t, file, name, i).value, name, j)
    decreases i
  {
    if i > 0 {
      HopsAdd(t, Follow(t, file, name).value, name, i - 1, j);
    }
  }

  /** The files on the trail were hopped over on the way to the file at hand, which is `k` hops behind the start. */
  ghost predicate OnTheWay(t: Tree, start: string, name: string, trail: set<string>, file: string, k: nat) {
    && Hops(t, start, name, k) == Some(file)
    && forall f | f in trail :: exists i: nat :: i < k && Hops(t, start, name, i) == Some(f)
  }

  lemma {:induction false} EndlessCircles(t: Tree, start: string, name: string,
        trail: set<string>, file: string, k: nat)
    requires OnTheWay(t, start, name, trail, file, k) && ResolveTypeName(t, file, name, trail) == Endless
    ensures RunsInCircle(t, start, name)
    decreases t.files.Keys - trail
  {
    hide StartsWithDot, EndsWithTs;
    if file in trail {
      var i: nat :| i < k && Hops(t, start, name, i) == Some(file);
    } else {
      var next := Follow(t, file, name).value;
      HopsAdd(t, start, name, k, 1);
      assert Hops(t, file, name, 1) == Hops(t, next, name, 0);
      assert OnTheWay(t, start, name, trail + {file}, next, k + 1);
      EndlessCircles(t, start, name, trail + {file}, next, k + 1);
    }
  }

  /** Once around the circle, the hops go on for ever. */
  lemma {:induction false} CircleGoesOn(t: Tree, file: string, name: string, i: nat, j: nat, n: nat)
    requires i < j && Hops(t, file, name, i).Some? && Hops(t, file, name, i) == Hops(t, file, name, j)
    ensures Hops(t, file, name, n).Some?
    decreases n
  {
    if n <= j {
      HopsShorten(t, file, name, n, j);
    } else {
      CircleGoesOn(t, file, name, i, j, n - (j - i));
      HopsAdd(t, file, name, i, n - j);
      HopsAdd(t, file, name, j, n - j);
    }
  }

  lemma {:induction false} HopsShorten(t: Tree, file: string, name: string, n: nat, m: nat)
    requires n <= m && Hops(t, file, name, m).Some?
    ensures Hops(t, file, name, n).Some?
    decreases n
  {
    if n > 0 {
      HopsShorten(t, Follow(t, file, name).value, name, n - 1, m - 1);
    }
  }

  /**
   Without the trail the recursion returns what the function gives, or never returns; it never returns exactly when the
   import hops go on for ever, and so exactly when they lead around in a circle.
   */
  lemma NeverReturnsExactlyInCircles(t: Tree, file: string, name: string)
    ensures
      var r := ResolveTypeName(t, file, name, {});
      && (forall calls: nat :: Unguarded(t, file, name, calls) in {None, Some(r)})
      && (r == Endless <==> forall calls: nat :: Unguarded(t, file, name, calls) == None)
      && (r == Endless <==> forall n: nat :: Hops(t, file, name, n).Some?)
      && (r == Endless <==> RunsInCircle(t, file, name))
  {
    var r := ResolveTypeName(t, file, name, {});
    if r == Endless {
      assert OnTheWay(t, file, name, {}, file, 0);
      EndlessCircles(t, file, name, {}, file, 0);
    } else {
      var enough := TrailedReturns(t, file, name, {});
      ReturnsWhenHopsEnd(t, file, name, enough);
      forall calls: nat ensures Unguarded(t, file, name, calls) in {None, Some(r)} {
        if Unguarded(t, file, name, calls).Some? {
          MoreCallsAgree(t, file, name, calls, calls + enough);
          MoreCallsAgree(t, file, name, enough, calls + enough);
        }
      }
    }
    if RunsInCircle(t, file, name) {
      var i: nat, j: nat :| i < j && Hops(t, file, name, i).Some? && Hops(t, file, name, i) == Hops(t, file, name, j);
      forall n: nat ensures Hops(t, file, name, n).Some? && Unguarded(t, file, name, n).None? {
        CircleGoesOn(t, file, name, i, j, n);
        ReturnsWhenHopsEnd(t, file, name, n);
      }
    }
  }

  lemma {:induction false} FailsAtUnreadable(t: Tree, start: string, name: string, trail: set<string>,
        file: string, k: nat)
    requires OnTheWay(t, start, name, trail, file, k) && ResolveTypeName(t, file, name, trail).Fails?
    ensures RunsIntoUnreadable(t, start, name)
    decreases t.files.Keys - trail
  {
    if file in t.files {
      var next := Follow(t, file, name).value;
      HopsAdd(t, start, name, k, 1);
      assert Hops(t, file, name, 1) == Hops(t, next, name, 0);
      assert OnTheWay(t, start, name, trail + {file}, next, k + 1);
      FailsAtUnreadable(t, start, name, trail + {file}, next, k + 1);
    }
  }

  lemma {:induction false} UnreadableFails(t: Tree, file: string, name: string, n: nat, calls: nat)
    requires Hops(t, file, name, n).Some? && Hops(t, file, name, n).value !in t.files && calls > n
    ensures Unguarded(t, file, name, calls).Some? && Unguarded(t, file, name, calls).value.Fails?
    decreases n
  {
    hide StartsWithDot, EndsWithTs;
    if n > 0 {
      UnreadableFails(t, Follow(t, file, name).value, name, n - 1, calls - 1);
    }
  }

  /** The resolution fails exactly when the import hops lead to a path that cannot be read. */
  lemma FailsExactlyWhenUnreadable(t: Tree, file: string, name: string)
    ensures ResolveTypeName(t, file, name, {}).Fails? <==> RunsIntoUnreadable(t, file, name)
  {
    if ResolveTypeName(t, file, name, {}).Fails? {
      assert OnTheWay(t, file, name, {}, file, 0);
      FailsAtUnreadable(t, file, name, {}, file, 0);
    }
    if n: nat :| Hops(t, file, name, n).Some? && Hops(t, file, name, n).value !in t.files {
      UnreadableFails(t, file, name, n, n + 1);
      NeverReturnsExactlyInCircles(t, file, name);
      assert Unguarded(t, file, name, n + 1) != None;
    }
  }

  /** Two files that import a name from each other without declaring it. */
  lemma MutualImportsNeverReturn(calls: nat)
    ensures
      var toB, toA := Import("X", "./b.ts"), Import("X", "./a.ts");
      var files := map["a.ts" := SourceFile(map[], map["X" := toB], []), "b.ts" := SourceFile(map[],
          map["X" := toA], [])];
      var t := Tree(files, (from: string, specifier: string) => if specifier == "./b.ts" then "b.ts" else "a.ts");
      ResolveTypeName(t, "a.ts", "X", {}) == Endless && Unguarded(t, "a.ts", "X", calls) == None
  {
    var toB, toA := Import("X", "./b.ts"), Import("X", "./a.ts");
    var files := map["a.ts" := SourceFile(map[], map["X" := toB], []), "b.ts" := SourceFile(map[], map["X" := toA],
        [])];
    var t := Tree(files, (from: string, specifier: string) => if specifier == "./b.ts" then "b.ts" else "a.ts");
    assert "./b.ts"[3..] == ".ts" && "./a.ts"[3..] == ".ts";
    assert t.files["a.ts"].imports["X"] == toB && t.files["b.ts"].imports["X"] == toA;
    assert StartsWithDot("./b.ts") && EndsWithTs("./b.ts") && StartsWithDot("./a.ts") && EndsWithTs("./a.ts");
    assert t.resolve("a.ts", "./b.ts") == "b.ts" && t.resolve("b.ts", "./a.ts") == "a.ts";
    assert Follow(t, "a.ts", "X") == Some("b.ts") && Follow(t, "b.ts", "X") == Some("a.ts");
    assert Hops(t, "b.ts", "X", 1) == Some("a.ts");
    assert Hops(t, "a.ts", "X", 0) == Hops(t, "a.ts", "X", 2);
    NeverReturnsExactlyInCircles(t, "a.ts", "X");
  }

  /** A name is followed exactly along a relative import of a `.ts` file that brings it in under its own name. */
  lemma FollowExactly(t: Tree, file: string, name: string, next: string)
    ensures Follow(t, file, name) == Some(next) <==>
            && file in t.files && name !in t.files[file].types && name in t.files[file].imports
            && var i := t.files[file].imports[name];
               && "." <= i.specifier && |i.specifier| >= 3 && i.specifier[|i.specifier| - 3..] == ".ts"
               && i.imported == name && next == t.resolve(file, i.specifier)
  {
    if file in t.files && name in t.files[file].imports {
      DotPrefix(t.files[file].imports[name].specifier);
    }
  }

  lemma {:induction false} UnguardedAtTheEnd(t: Tree, file: string, name: string, n: nat)
    requires Hops(t, file, name, n).Some? && Hops(t, file, name, n + 1).None?
    ensures Unguarded(t, file, name, n + 1) == Unguarded(t, Hops(t, file, name, n).value, name, 1)
    decreases n
  {
    hide StartsWithDot, EndsWithTs;
    if n > 0 {
      UnguardedAtTheEnd(t, Follow(t, file, name).value, name, n - 1);
    }
  }

  /** A resolution that returns says what the last file on the way has of the name. */
  lemma ResolutionIsThatOfTheLastFile(t: Tree, file: string, name: string, n: nat)
    requires Hops(t, file, name, n).Some? && Hops(t, file, name, n + 1).None?
    ensures
      var last, r := Hops(t, file, name, n).value, Resolve(t, Place(file, name));
      if last !in t.files then r == Fails(last)
      else if name in t.files[last].types then r == DeclaredIn(last)
      else if name in t.files[last].imports && !("." <= t.files[last].imports[name].specifier) then
        r == Imported(t.files[last].imports[name])
      else r == Unresolved
  {
    var last := Hops(t, file, name, n).value;
    HopsAdd(t, file, name, n, 1);
    if last in t.files && name in t.files[last].imports {
      DotPrefix(t.files[last].imports[name].specifier);
    }
    UnguardedAtTheEnd(t, file, name, n);
    NeverReturnsExactlyInCircles(t, file, name);
    hide ResolveTypeName, StartsWithDot, EndsWithTs;
    assert Hops(t, last, name, 1) == None;
    assert Unguarded(t, last, name, 1) != None;
  }

  lemma DeclaredDeclares(t: Tree, file: string, name: string, trail: set<string>)
    ensures
      var r := ResolveTypeName(t, file, name, trail);
      r.DeclaredIn? ==> Declares(t, Place(r.file, name))
    decreases t.files.Keys - trail
  {
  }

  /** The names a pasted declaration demands, in order, without the globals. */
  function Demands(names: seq<string>, globals: set<string>, file: string): (items: seq<Item>)
    ensures forall i {:trigger i in items} | i in items :: i.file == file && i.name in names && i.name !in globals
    ensures forall n {:trigger n in names} | n in names && n !in globals :: Place(file, n) in items
  {
    if names == [] then []
    else
      assert names == [names[0]] + names[1..];
      (if names[0] in globals then [] else [Place(file, names[0])]) + Demands(names[1..], globals, file)
  }

  /** They stand in the order of the names. */
  lemma {:induction false} DemandsInOrder(before: seq<string>, n: string, after: seq<string>, globals: set<string>,
      file: string)
    ensures Demands(before + [n] + after, globals, file)
            == Demands(before, globals, file) + (if n in globals then [] else [Place(file, n)])
               + Demands(after, globals, file)
    decreases before
  {
    hide *;
    var all := before + [n] + after;
    DemandsStep(all, globals, file);
    DemandsStep(before, globals, file);
    if before == [] {
      assert all == [n] + after && all[1..] == after;
    } else {
      assert all[0] == before[0] && all[1..] == before[1..] + [n] + after;
      DemandsInOrder(before[1..], n, after, globals, file);
    }
  }

  lemma DemandsStep(names: seq<string>, globals: set<string>, file: string)
    ensures Demands(names, globals, file) ==
            if names == [] then []
            else (if names[0] in globals then [] else [Place(file, names[0])]) + Demands(names[1..], globals, file)
  {}

  /** The demands of a pasted declaration. */
  function DeclDemands(t: Tree, globals: set<string>, file: string, name: string): seq<Item> {
    if Declares(t, Place(file, name)) then Demands(t.files[file].types[name], globals, file) else []
  }

  /** What one demand brings about: the next demands when it resolves to a declaration. */
  function Next(t: Tree, globals: set<string>, item: Item): seq<Item> {
    var r := Resolve(t, item);
    if r.DeclaredIn? then DeclDemands(t, globals, r.file, item.name) else []
  }

  /** A resolved demand demands exactly the non-global names that its declaration references, seen from its file. */
  lemma NextExactly(t: Tree, globals: set<string>, item: Item, next: Item)
    ensures next in Next(t, globals, item) <==>
            && Resolve(t, item) == DeclaredIn(next.file)
            && next.file in t.files && item.name in t.files[next.file].types
            && next.name in t.files[next.file].types[item.name] && next.name !in globals
  {
    DeclaredDeclares(t, item.file, item.name, {});
    assert next == Place(next.file, next.name);
  }

  /** `item` is demanded, after at most `n` steps from the config type. */
  ghost predicate DemandedIn(t: Tree, globals: set<string>, root: Item, n: nat, item: Item) {
    || item == root
    || (n > 0 && exists parent :: DemandedIn(t, globals, root, n - 1, parent) && item in Next(t, globals, parent))
  }

  ghost predicate Demanded(t: Tree, globals: set<string>, root: Item, item: Item) {
    exists n: nat :: DemandedIn(t, globals, root, n, item)
  }

  lemma NextIsDemanded(t: Tree, globals: set<string>, root: Item, parent: Item, item: Item)
    requires Demanded(t, globals, root, parent) && item in Next(t, globals, parent)
    ensures Demanded(t, globals, root, item)
  {
    var n: nat :| DemandedIn(t, globals, root, n, parent);
    assert DemandedIn(t, globals, root, n + 1, item);
  }

  lemma RootIsDemanded(t: Tree, globals: set<string>, root: Item)
    ensures Demanded(t, globals, root, root)
  {
    assert DemandedIn(t, globals, root, 0, root);
  }

  /**
   The closure is unambiguous: the config type is declared in the package and never imported, every demanded name
   resolves, and a name demanded from two files resolves to the same declaration or import.
   */
  ghost predicate Unambiguous(t: Tree, globals: set<string>, root: Item) {
    && Resolve(t, root).DeclaredIn?
    && (forall i | Demanded(t, globals, root, i) :: Resolve(t, i).DeclaredIn? || Resolve(t, i).Imported?)
    && (forall i, j | Demanded(t, globals, root, i) && Demanded(t, globals, root, j) && i.name == j.name ::
          Resolve(t, i) == Resolve(t, j))
  }

  /** No demanded name runs into an unreadable file or an import circle. */
  ghost predicate Terminating(t: Tree, globals: set<string>, root: Item) {
    forall i | Demanded(t, globals, root, i) ::
      !RunsIntoUnreadable(t, i.file, i.name) && !RunsInCircle(t, i.file, i.name)
  }

  /**
   As Unambiguous, but of the demanded names that resolve: none of the others is plainly unresolved, so they run into
   an unreadable file or an import circle.
   */
  ghost predicate OtherwiseUnambiguous(t: Tree, globals: set<string>, root: Item) {
    && !Resolve(t, root).Imported?
    && (forall i | Demanded(t, globals, root, i) :: !Resolve(t, i).Unresolved?)
    && (forall i, j | Demanded(t, globals, root, i) && Demanded(t, globals, root, j) && i.name == j.name ::
          Resolves(t, i) && Resolves(t, j) ==> Resolve(t, i) == Resolve(t, j))
  }

  /** The resolution returns: it meets neither an unreadable file nor an import circle. */
  predicate Resolves(t: Tree, item: Item) {
    !Resolve(t, item).Fails? && !Resolve(t, item).Endless?
  }

  lemma ResolvesExactlyWhen(t: Tree, item: Item)
    ensures Resolves(t, item)
            <==> !RunsIntoUnreadable(t, item.file, item.name) && !RunsInCircle(t, item.file, item.name)
  {
    NeverReturnsExactlyInCircles(t, item.file, item.name);
    FailsExactlyWhenUnreadable(t, item.file, item.name);
  }

  /** Ambiguity has two sources: what resolves does so ambiguously, or something does not return. */
  lemma UnambiguousSplits(t: Tree, globals: set<string>, root: Item)
    ensures Unambiguous(t, globals, root)
            <==> OtherwiseUnambiguous(t, globals, root) && Terminating(t, globals, root)
  {
    hide Resolve, RunsIntoUnreadable, RunsInCircle, Demanded;
    RootIsDemanded(t, globals, root);
    forall i ensures Resolves(t, i) <==> !RunsIntoUnreadable(t, i.file, i.name) && !RunsInCircle(t, i.file, i.name) {
      ResolvesExactlyWhen(t, i);
    }
  }

  lemma {:induction false} RootDoesNotReturn(t: Tree, globals: set<string>, root: Item, n: nat, item: Item)
    requires !Resolves(t, root) && DemandedIn(t, globals, root, n, item)
    ensures item == root
  {
    if item != root {
      var parent :| DemandedIn(t, globals, root, n - 1, parent) && item in Next(t, globals, parent);
      RootDoesNotReturn(t, globals, root, n - 1, parent);
    }
  }

  /** The fence so far: the file of the declaration pasted under each name, and the import recorded under each name. */
  datatype Fence = Fence(pasted: map<string, string>, refs: map<string, Import>)

  /** A demand is met: its declaration is pasted under the name, or its import is recorded under it. */
  predicate Met(t: Tree, fence: Fence, item: Item) {
    match Resolve(t, item)
    case DeclaredIn(file) => item.name in fence.pasted && fence.pasted[item.name] == file
    case Imported(imp) => item.name in fence.refs && fence.refs[item.name] == imp
    case _ => false
  }

  /** Something demanded the name and resolved it so. */
  ghost predicate DemandedAs(t: Tree, globals: set<string>, root: Item, name: string, r: Resolved) {
    exists f :: Demanded(t, globals, root, Place(f, name)) && Resolve(t, Place(f, name)) == r
  }

  /** Everything in the fence was demanded, as what it is. */
  ghost predicate Justified(t: Tree, globals: set<string>, root: Item, fence: Fence) {
    && (forall n | n in fence.pasted :: DemandedAs(t, globals, root, n, DeclaredIn(fence.pasted[n])))
    && (forall n | n in fence.refs :: DemandedAs(t, globals, root, n, Imported(fence.refs[n])))
  }

  ghost predicate MetOrQueued(t: Tree, fence: Fence, queue: seq<Item>, items: seq<Item>) {
    forall i {:trigger i in items} | i in items :: Met(t, fence, i) || i in queue
  }

  /** Every demand of a pasted declaration is met or still in the queue; no name is both pasted and imported. */
  ghost predicate Covered(t: Tree, globals: set<string>, root: Item, fence: Fence, queue: seq<Item>) {
    && (Met(t, fence, root) || root in queue)
    && fence.pasted.Keys !! fence.refs.Keys && root.name !in fence.refs
    && forall n {:trigger fence.pasted[n]} | n in fence.pasted ::
         MetOrQueued(t, fence, queue, DeclDemands(t, globals, fence.pasted[n], n))
  }

  /** With nothing queued, every demanded name is met. */
  lemma {:induction false} DemandsAreMet(t: Tree, globals: set<string>, root: Item, fence: Fence, n: nat, item: Item)
    requires Covered(t, globals, root, fence, []) && DemandedIn(t, globals, root, n, item)
    ensures Met(t, fence, item)
  {
    if item != root {
      var parent :| DemandedIn(t, globals, root, n - 1, parent) && item in Next(t, globals, parent);
      DemandsAreMet(t, globals, root, fence, n - 1, parent);
      assert MetOrQueued(t, fence, [], DeclDemands(t, globals, fence.pasted[parent.name], parent.name));
    }
  }

  lemma CoveredIsUnambiguous(t: Tree, globals: set<string>, root: Item, fence: Fence)
    requires Covered(t, globals, root, fence, [])
    ensures Unambiguous(t, globals, root)
  {
    RootIsDemanded(t, globals, root);
    forall i | Demanded(t, globals, root, i) ensures Met(t, fence, i) {
      var n: nat :| DemandedIn(t, globals, root, n, i);
      DemandsAreMet(t, globals, root, fence, n, i);
    }
  }

  // ---- One turn of the queue ---------------------------------------------------------------------------------------

  ghost predicate Extends(before: Fence, after: Fence) {
    && (forall n | n in before.pasted :: n in after.pasted && after.pasted[n] == before.pasted[n])
    && (forall n | n in before.refs :: n in after.refs && after.refs[n] == before.refs[n])
  }

  /** A turn that meets its item, adding at most one declaration and queueing its demands, keeps the coverage. */
  lemma TurnKeepsCovered(t: Tree, globals: set<string>, root: Item, before: Fence, after: Fence, item: Item,
        rest: seq<Item>, queue: seq<Item>)
    requires Covered(t, globals, root, before, [item] + rest) && Extends(before, after) && Met(t, after, item)
    requires after.pasted.Keys !! after.refs.Keys && root.name !in after.refs
    requires forall i | i in rest :: i in queue
    requires forall n | n in after.pasted && n !in before.pasted ::
               forall i | i in DeclDemands(t, globals, after.pasted[n], n) :: i in queue
    ensures Covered(t, globals, root, after, queue)
  {
    forall i | Met(t, before, i) || i in [item] + rest ensures Met(t, after, i) || i in queue {
    }
    forall n {:trigger after.pasted[n]} | n in after.pasted
      ensures MetOrQueued(t, after, queue, DeclDemands(t, globals, after.pasted[n], n))
    {
      if n in before.pasted {
        assert MetOrQueued(t, before, [item] + rest, DeclDemands(t, globals, before.pasted[n], n));
      }
    }
  }

  datatype Violation =
    | Unknown(item: Item)
    | ConfigTypeImported(imp: Import)
    | DeclaredAndImported(name: string)
    | ImportedTwice(name: string)
    | DeclaredTwice(name: string)

  /** What one queued item does to the fence: a new fence with the demands to queue, or a violation. */
  datatype Turn = Advance(fence: Fence, demands: seq<Item>) | Violates(violation: Violation) | Crash

  /** What a violation says of the demanded names. */
  ghost predicate Explained(t: Tree, globals: set<string>, root: Item, v: Violation) {
    match v
    case Unknown(item) => Demanded(t, globals, root, item) && Resolve(t, item) == Unresolved
    case ConfigTypeImported(imp) => DemandedAs(t, globals, root, root.name, Imported(imp))
    case DeclaredAndImported(name) =>
      exists file, imp ::
        DemandedAs(t, globals, root, name, DeclaredIn(file)) && DemandedAs(t, globals, root, name, Imported(imp))
    case ImportedTwice(name) =>
      exists one, two :: one != two
        && DemandedAs(t, globals, root, name, Imported(one)) && DemandedAs(t, globals, root, name, Imported(two))
    case DeclaredTwice(name) =>
      exists one, two :: one != two
        && DemandedAs(t, globals, root, name, DeclaredIn(one)) && DemandedAs(t, globals, root, name, DeclaredIn(two))
  }

  function TakeItem(t: Tree, globals: set<string>, root: Item, fence: Fence, item: Item): Turn {
    var n := item.name;
    match Resolve(t, item)
    case Fails(_) => Crash
    case Endless => Crash
    case Unresolved => Violates(Unknown(item))
    case Imported(imp) =>
      if n == root.name then Violates(ConfigTypeImported(imp))
      else if n in fence.pasted then Violates(DeclaredAndImported(n))
      else if n in fence.refs && fence.refs[n] != imp then Violates(ImportedTwice(n))
      else Advance(fence.(refs := fence.refs[n := imp]), [])
    case DeclaredIn(file) =>
      if n in fence.pasted && fence.pasted[n] == file then Advance(fence, [])
      else if n in fence.pasted then Violates(DeclaredTwice(n))
      else if n in fence.refs then Violates(DeclaredAndImported(n))
      else Advance(fence.(pasted := fence.pasted[n := file]), DeclDemands(t, globals, file, n))
  }

  lemma AdvanceKeepsCovered(t: Tree, globals: set<string>, root: Item, fence: Fence, item: Item, rest: seq<Item>)
    requires Covered(t, globals, root, fence, [item] + rest) && TakeItem(t, globals, root, fence, item).Advance?
    ensures
      var turn := TakeItem(t, globals, root, fence, item);
      Covered(t, globals, root, turn.fence, rest + turn.demands)
  {
    var turn := TakeItem(t, globals, root, fence, item);
    TurnKeepsCovered(t, globals, root, fence, turn.fence, item, rest, rest + turn.demands);
  }

  lemma AdvanceKeepsJustified(t: Tree, globals: set<string>, root: Item, fence: Fence, item: Item)
    requires Justified(t, globals, root, fence) && Demanded(t, globals, root, item)
    requires TakeItem(t, globals, root, fence, item).Advance?
    ensures Justified(t, globals, root, TakeItem(t, globals, root, fence, item).fence)
    ensures forall i | i in TakeItem(t, globals, root, fence, item).demands :: Demanded(t, globals, root, i)
  {
    hide Demanded, Resolve, DeclDemands;
    var turn := TakeItem(t, globals, root, fence, item);
    assert item == Place(item.file, item.name);
    assert DemandedAs(t, globals, root, item.name, Resolve(t, item));
    hide DemandedAs;
    forall i | i in turn.demands ensures Demanded(t, globals, root, i) {
      NextIsDemanded(t, globals, root, item, i);
    }
  }

  lemma ViolationIsExplained(t: Tree, globals: set<string>, root: Item, fence: Fence, item: Item)
    requires Justified(t, globals, root, fence) && Demanded(t, globals, root, item)
    requires TakeItem(t, globals, root, fence, item).Violates?
    ensures Explained(t, globals, root, TakeItem(t, globals, root, fence, item).violation)
  {
    hide Demanded, Resolve, DeclDemands;
    var n := item.name;
    assert item == Place(item.file, n);
    assert DemandedAs(t, globals, root, n, Resolve(t, item));
    hide DemandedAs;
    assert n in fence.pasted ==> DemandedAs(t, globals, root, n, DeclaredIn(fence.pasted[n]));
    assert n in fence.refs ==> DemandedAs(t, globals, root, n, Imported(fence.refs[n]));
  }

  lemma RootIsAlone(t: Tree, globals: set<string>, root: Item, item: Item)
    requires Demanded(t, globals, root, item)
    ensures !Resolves(t, root) ==> item == root
  {
    if !Resolves(t, root) {
      var n: nat :| DemandedIn(t, globals, root, n, item);
      RootDoesNotReturn(t, globals, root, n, item);
    }
  }

  /** In a closure that is otherwise unambiguous no demanded item violates anything, though it may crash. */
  lemma UnambiguousAdvances(t: Tree, globals: set<string>, root: Item, fence: Fence, item: Item)
    requires OtherwiseUnambiguous(t, globals, root) && Justified(t, globals, root, fence)
    requires Demanded(t, globals, root, item)
    ensures
      var turn := TakeItem(t, globals, root, fence, item);
      if Resolves(t, item) then turn.Advance? else turn.Crash?
  {
    hide Demanded, DemandedIn, Resolve, DeclDemands, Next;
    RootIsDemanded(t, globals, root);
    if item.name in fence.pasted {
      var r := DeclaredIn(fence.pasted[item.name]);
      var f :| Demanded(t, globals, root, Place(f, item.name)) && Resolve(t, Place(f, item.name)) == r;
      assert Resolves(t, Place(f, item.name));
    }
    if item.name in fence.refs {
      var r := Imported(fence.refs[item.name]);
      var f :| Demanded(t, globals, root, Place(f, item.name)) && Resolve(t, Place(f, item.name)) == r;
      assert Resolves(t, Place(f, item.name));
    }
    RootIsAlone(t, globals, root, item);
  }

  // ---- The queue ---------------------------------------------------------------------------------------------------

  function DeclaredNames(t: Tree): set<string> {
    set f, n | f in t.files && n in t.files[f].types :: n
  }

  lemma AdvanceFalls(t: Tree, globals: set<string>, root: Item, fence: Fence, item: Item)
    requires TakeItem(t, globals, root, fence, item).Advance?
    ensures
      var turn := TakeItem(t, globals, root, fence, item);
      if turn.fence.pasted == fence.pasted then turn.demands == []
      else DeclaredNames(t) - turn.fence.pasted.Keys < DeclaredNames(t) - fence.pasted.Keys
  {
    DeclaredDeclares(t, item.file, item.name, {});
    var turn := TakeItem(t, globals, root, fence, item);
    if turn.fence.pasted != fence.pasted {
      assert item.name in DeclaredNames(t) - fence.pasted.Keys;
    }
  }

  datatype Closure = Closed(fence: Fence, pastes: seq<Place>, violations: seq<Violation>) | Crashed

  /** The pastes are the pasted declarations, once each. */
  ghost predicate ListsPasted(pastes: seq<Place>, pasted: map<string, string>) {
    && (forall k | 0 <= k < |pastes| :: pastes[k].name in pasted && pasted[pastes[k].name] == pastes[k].file)
    && (forall j, k | 0 <= j < k < |pastes| :: pastes[j].name != pastes[k].name)
    && |pastes| == |pasted|
  }

  /** The pastes after a turn: one more when it added a declaration. */
  function PastesAfter(pastes: seq<Place>, before: Fence, after: Fence, name: string): seq<Place> {
    if name !in before.pasted && name in after.pasted then pastes + [Place(after.pasted[name], name)] else pastes
  }

  lemma AdvanceKeepsPastes(t: Tree, globals: set<string>, root: Item, fence: Fence, item: Item, pastes: seq<Place>)
    requires ListsPasted(pastes, fence.pasted) && TakeItem(t, globals, root, fence, item).Advance?
    ensures
      var next := TakeItem(t, globals, root, fence, item).fence;
      ListsPasted(PastesAfter(pastes, fence, next, item.name), next.pasted)
  {
    hide ListsPasted, DeclDemands, Resolve;
    var next := TakeItem(t, globals, root, fence, item).fence;
    if item.name !in fence.pasted && item.name in next.pasted {
      PasteIsListed(pastes, fence.pasted, item.name, next.pasted[item.name]);
    }
  }

  lemma PasteIsListed(pastes: seq<Place>, pasted: map<string, string>, name: string, file: string)
    requires ListsPasted(pastes, pasted) && name !in pasted
    ensures ListsPasted(pastes + [Place(file, name)], pasted[name := file])
  {
    assert pasted[name := file].Keys == pasted.Keys + {name};
  }

  // ---- The order of the pastes -------------------------------------------------------------------------------------

  /** Where a demand comes from: a paste, by its position, and the position among its demands; -1 is the config type. */
  datatype Origin = Origin(paste: int, at: nat)

  predicate Before(a: Origin, b: Origin) {
    a.paste < b.paste || (a.paste == b.paste && a.at < b.at)
  }

  ghost predicate Rising(origins: seq<Origin>) {
    forall i, j | 0 <= i < j < |origins| :: Before(origins[i], origins[j])
  }

  ghost predicate ComesFrom(t: Tree, globals: set<string>, root: Item, pastes: seq<Place>, o: Origin, item: Item) {
    if o.paste == -1 then o.at == 0 && item == root
    else
      && 0 <= o.paste < |pastes|
      && var demands := DeclDemands(t, globals, pastes[o.paste].file, pastes[o.paste].name);
         o.at < |demands| && demands[o.at] == item
  }

  /** The demand from there resolves to the paste at position j. */
  ghost predicate PastedFrom(t: Tree, globals: set<string>, root: Item, pastes: seq<Place>, j: nat, o: Origin)
    requires j < |pastes|
  {
    exists f :: ComesFrom(t, globals, root, pastes[..j], o, Place(f, pastes[j].name))
      && Resolve(t, Place(f, pastes[j].name)) == DeclaredIn(pastes[j].file)
  }

  /**
   The pastes stand in the order in which they are demanded: first the config type, then what the first paste demands,
   in the order of its names, then what the second one demands, and so on.
   */
  ghost predicate BreadthFirst(t: Tree, globals: set<string>, root: Item, pastes: seq<Place>, origins: seq<Origin>) {
    && |origins| == |pastes| && Rising(origins)
    && forall j: nat | j < |pastes| :: PastedFrom(t, globals, root, pastes, j, origins[j])
  }

  ghost predicate QueuedInOrder(t: Tree, globals: set<string>, root: Item, pastes: seq<Place>, queue: seq<Item>,
      queued: seq<Origin>)
  {
    |queued| == |queue| && forall q | 0 <= q < |queue| :: ComesFrom(t, globals, root, pastes, queued[q], queue[q])
  }

  /** The origins of the demands of the paste at position n. */
  function OriginsOf(n: nat, count: nat): seq<Origin> {
    seq(count, k requires 0 <= k < count => Origin(n, k))
  }

  lemma RisingJoins(a: seq<Origin>, b: seq<Origin>)
    requires Rising(a) && Rising(b) && forall i, j | 0 <= i < |a| && 0 <= j < |b| :: Before(a[i], b[j])
    ensures Rising(a + b)
  {}

  lemma MorePastesAgree(t: Tree, globals: set<string>, root: Item, pastes: seq<Place>, paste: Place, o: Origin,
      item: Item)
    requires ComesFrom(t, globals, root, pastes, o, item)
    ensures ComesFrom(t, globals, root, pastes + [paste], o, item) && o.paste < |pastes|
  {}

  /** A turn that pastes nothing takes the first demand out of the queue. */
  lemma DroppedKeepsOrder(t: Tree, globals: set<string>, root: Item, pastes: seq<Place>, origins: seq<Origin>,
      queue: seq<Item>, queued: seq<Origin>)
    requires queue != [] && Rising(origins + queued) && QueuedInOrder(t, globals, root, pastes, queue, queued)
    ensures Rising(origins + queued[1..]) && QueuedInOrder(t, globals, root, pastes, queue[1..], queued[1..])
  {
    hide ComesFrom;
    var before, after := origins + queued, origins + queued[1..];
    forall i, j | 0 <= i < j < |after| ensures Before(after[i], after[j]) {
      assert after[i] == before[if i < |origins| then i else i + 1];
      assert after[j] == before[if j < |origins| then j else j + 1];
    }
  }

  /** A turn that pastes queues the demands of the new paste behind all others. */
  lemma PastedKeepsOrder(t: Tree, globals: set<string>, root: Item, pastes: seq<Place>, origins: seq<Origin>,
      queue: seq<Item>, queued: seq<Origin>, file: string)
    requires queue != [] && BreadthFirst(t, globals, root, pastes, origins)
    requires Rising(origins + queued) && QueuedInOrder(t, globals, root, pastes, queue, queued)
    requires Resolve(t, queue[0]) == DeclaredIn(file)
    ensures
      var paste := Place(file, queue[0].name);
      var demands := DeclDemands(t, globals, file, queue[0].name);
      var more := OriginsOf(|pastes|, |demands|);
      && BreadthFirst(t, globals, root, pastes + [paste], origins + [queued[0]])
      && Rising(origins + [queued[0]] + (queued[1..] + more))
      && QueuedInOrder(t, globals, root, pastes + [paste], queue[1..] + demands, queued[1..] + more)
  {
    hide DeclDemands, Resolve;
    var paste := Place(file, queue[0].name);
    var demands := DeclDemands(t, globals, file, queue[0].name);
    var more := OriginsOf(|pastes|, |demands|);
    var after, longer, all := origins + [queued[0]], pastes + [paste], origins + queued;
    assert all == after + queued[1..];
    assert Rising(after) by {
      assert forall i | 0 <= i < |after| :: after[i] == all[i];
    }
    forall j: nat | j < |longer| ensures PastedFrom(t, globals, root, longer, j, after[j]) {
      if j < |pastes| {
        assert PastedFrom(t, globals, root, pastes, j, origins[j]) && longer[..j] == pastes[..j];
        assert longer[j] == pastes[j] && after[j] == origins[j];
      } else {
        assert longer[..j] == pastes && longer[j] == paste && after[j] == queued[0];
        assert queue[0] == Place(queue[0].file, paste.name);
        assert ComesFrom(t, globals, root, pastes, queued[0], Place(queue[0].file, paste.name));
      }
    }
    forall i | 0 <= i < |all| ensures all[i].paste < |pastes| {
      OriginIsEarlier(t, globals, root, pastes, origins, queue, queued, i);
    }
    RisingJoins(all, more);
    assert all + more == after + (queued[1..] + more);
    var next, from := queue[1..] + demands, queued[1..] + more;
    forall q | 0 <= q < |next| ensures ComesFrom(t, globals, root, longer, from[q], next[q]) {
      if q < |queue| - 1 {
        MorePastesAgree(t, globals, root, pastes, paste, queued[q + 1], queue[q + 1]);
      } else {
        assert longer[|pastes|] == paste;
      }
    }
  }

  lemma OriginIsEarlier(t: Tree, globals: set<string>, root: Item, pastes: seq<Place>, origins: seq<Origin>,
      queue: seq<Item>, queued: seq<Origin>, i: nat)
    requires BreadthFirst(t, globals, root, pastes, origins) && QueuedInOrder(t, globals, root, pastes, queue, queued)
    requires i < |origins + queued|
    ensures (origins + queued)[i].paste < |pastes|
  {
    hide DeclDemands, Resolve;
    if i < |origins| {
      assert PastedFrom(t, globals, root, pastes, i, origins[i]);
    } else {
      var q := i - |origins|;
      assert ComesFrom(t, globals, root, pastes, queued[q], queue[q]);
    }
  }

  /** The order of the pastes and of the queue after any turn. */
  lemma TurnKeepsOrder(t: Tree, globals: set<string>, root: Item, fence: Fence, pastes: seq<Place>,
      origins: seq<Origin>, queue: seq<Item>, queued: seq<Origin>) returns (origins': seq<Origin>, queued': seq<Origin>)
    requires queue != [] && BreadthFirst(t, globals, root, pastes, origins)
    requires Rising(origins + queued) && QueuedInOrder(t, globals, root, pastes, queue, queued)
    ensures
      match TakeItem(t, globals, root, fence, queue[0])
      case Advance(next, demands) =>
        var pastes' := PastesAfter(pastes, fence, next, queue[0].name);
        && BreadthFirst(t, globals, root, pastes', origins') && Rising(origins' + queued')
        && QueuedInOrder(t, globals, root, pastes', queue[1..] + demands, queued')
      case _ =>
        && BreadthFirst(t, globals, root, pastes, origins') && Rising(origins' + queued')
        && QueuedInOrder(t, globals, root, pastes, queue[1..], queued')
  {
    DroppedKeepsOrder(t, globals, root, pastes, origins, queue, queued);
    origins', queued' := origins, queued[1..];
    var item := queue[0];
    var turn := TakeItem(t, globals, root, fence, item);
    if turn.Advance? {
      AdvanceFalls(t, globals, root, fence, item);
      PastedMeansDeclared(t, globals, root, fence, item);
      hide TakeItem, BreadthFirst, Rising, QueuedInOrder, DeclDemands, Resolve;
      if item.name !in fence.pasted && item.name in turn.fence.pasted {
        PastedKeepsOrder(t, globals, root, pastes, origins, queue, queued, turn.fence.pasted[item.name]);
        origins' := origins + [queued[0]];
        queued' := queued[1..] + OriginsOf(|pastes|, |turn.demands|);
      } else {
        assert queue[1..] + [] == queue[1..];
      }
    }
  }

  lemma PastedMeansDeclared(t: Tree, globals: set<string>, root: Item, fence: Fence, item: Item)
    requires TakeItem(t, globals, root, fence, item).Advance?
    ensures
      var turn := TakeItem(t, globals, root, fence, item);
      if item.name !in fence.pasted && item.name in turn.fence.pasted then
        var file := turn.fence.pasted[item.name];
        Resolve(t, item) == DeclaredIn(file) && turn.demands == DeclDemands(t, globals, file, item.name)
      else turn.demands == []
  {
    hide Resolve, DeclDemands;
  }

  lemma OrderAtFirst(t: Tree, globals: set<string>, root: Item)
    ensures BreadthFirst(t, globals, root, [], []) && Rising([] + [Origin(-1, 0)])
    ensures QueuedInOrder(t, globals, root, [], [root], [Origin(-1, 0)])
  {}

  /** What one turn of the loop keeps, and how it falls. */
  lemma ItemTaken(t: Tree, globals: set<string>, root: Item, fence: Fence, queue: seq<Item>,
        pastes: seq<Place>, clean: bool)
    requires queue != [] && forall i | i in queue :: Demanded(t, globals, root, i)
    requires Justified(t, globals, root, fence) && ListsPasted(pastes, fence.pasted)
    requires clean ==> Covered(t, globals, root, fence, queue)
    ensures forall i | i in queue[1..] :: Demanded(t, globals, root, i)
    ensures
      match TakeItem(t, globals, root, fence, queue[0])
      case Crash => !Terminating(t, globals, root)
      case Violates(v) => !OtherwiseUnambiguous(t, globals, root) && Explained(t, globals, root, v)
      case Advance(next, demands) =>
        && (forall i | i in queue[1..] + demands :: Demanded(t, globals, root, i))
        && Justified(t, globals, root, next)
        && ListsPasted(PastesAfter(pastes, fence, next, queue[0].name), next.pasted)
        && (clean ==> Covered(t, globals, root, next, queue[1..] + demands))
        && (DeclaredNames(t) - next.pasted.Keys < DeclaredNames(t) - fence.pasted.Keys
            || (next.pasted == fence.pasted && demands == []))
  {
    hide *;
    var item, rest := queue[0], queue[1..];
    assert queue == [item] + rest && item in queue;
    CrashesOnlyWhenNotReturning(t, globals, root, fence, item);
    match TakeItem(t, globals, root, fence, item)
    case Crash =>
    case Violates(_) =>
      ViolationIsExplained(t, globals, root, fence, item);
      if OtherwiseUnambiguous(t, globals, root) {
        UnambiguousAdvances(t, globals, root, fence, item);
      }
    case Advance(next, demands) =>
      AdvanceKeepsJustified(t, globals, root, fence, item);
      AdvanceKeepsPastes(t, globals, root, fence, item, pastes);
      AdvanceFalls(t, globals, root, fence, item);
      if clean {
        AdvanceKeepsCovered(t, globals, root, fence, item, rest);
      }
  }

  lemma CrashesOnlyWhenNotReturning(t: Tree, globals: set<string>, root: Item, fence: Fence, item: Item)
    requires Demanded(t, globals, root, item)
    ensures TakeItem(t, globals, root, fence, item).Crash? <==> !Resolves(t, item)
    ensures !Resolves(t, item) ==> !Terminating(t, globals, root)
  {
    hide Demanded, RunsIntoUnreadable, RunsInCircle;
    ResolvesExactlyWhen(t, item);
  }

  /**
   Collect the closure. The queue always runs dry or crashes on a demanded name; when nothing else is ambiguous, it
   crashes exactly when some demanded name does not return, and when it does not crash on such a name it has recorded a
   violation. It records no violation exactly when the closure is unambiguous, and then the fence meets every demand
   with one meaning a name, pastes and imports kept apart, and contains nothing that was not demanded. Each violation
   says of the demanded names what its kind means, and the pastes stand in the order in which they were demanded.
   */
  method CollectClosure(t: Tree, globals: set<string>, root: Item) returns (c: Closure)
    ensures c.Crashed? ==> !Terminating(t, globals, root)
    ensures !Terminating(t, globals, root) ==> c.Crashed? || c.violations != []
    ensures OtherwiseUnambiguous(t, globals, root) ==> (c.Crashed? <==> !Terminating(t, globals, root))
    ensures c.Closed? ==> (c.violations == [] <==> Unambiguous(t, globals, root))
    ensures c.Closed? ==> Justified(t, globals, root, c.fence) && ListsPasted(c.pastes, c.fence.pasted)
    ensures c.Closed? ==> forall v | v in c.violations :: Explained(t, globals, root, v)
    ensures c.Closed? ==> exists origins :: BreadthFirst(t, globals, root, c.pastes, origins)
    ensures c.Closed? && c.violations == [] ==>
      && c.fence.pasted.Keys !! c.fence.refs.Keys
      && forall i | Demanded(t, globals, root, i) :: Met(t, c.fence, i)
  {
    var fence := Fence(map[], map[]);
    var pastes: seq<Place> := [];
    var violations: seq<Violation> := [];
    var queue: seq<Item> := [root];
    ghost var origins: seq<Origin>, queued: seq<Origin> := [], [Origin(-1, 0)];
    RootIsDemanded(t, globals, root);
    UnambiguousSplits(t, globals, root);
    OrderAtFirst(t, globals, root);
    while queue != []
      invariant forall i | i in queue :: Demanded(t, globals, root, i)
      invariant Justified(t, globals, root, fence) && ListsPasted(pastes, fence.pasted)
      invariant violations == [] ==> Covered(t, globals, root, fence, queue)
      invariant OtherwiseUnambiguous(t, globals, root) ==> violations == []
      invariant forall v | v in violations :: Explained(t, globals, root, v)
      invariant BreadthFirst(t, globals, root, pastes, origins) && Rising(origins + queued)
      invariant QueuedInOrder(t, globals, root, pastes, queue, queued)
      decreases DeclaredNames(t) - fence.pasted.Keys, |queue|
    {
      hide *;
      var item := queue[0];
      var turn := TakeItem(t, globals, root, fence, item);
      ItemTaken(t, globals, root, fence, queue, pastes, violations == []);
      origins, queued := TurnKeepsOrder(t, globals, root, fence, pastes, origins, queue, queued);
      queue := queue[1..];
      match turn
      case Crash => return Crashed;
      case Violates(v) => violations := violations + [v];
      case Advance(next, demands) =>
        pastes := PastesAfter(pastes, fence, next, item.name);
        fence := next;
        queue := queue + demands;
    }
    if violations == [] {
      CoveredIsUnambiguous(t, globals, root, fence);
      forall i | Demanded(t, globals, root, i) ensures Met(t, fence, i) {
        ghost var n: nat :| DemandedIn(t, globals, root, n, i);
        DemandsAreMet(t, globals, root, fence, n, i);
      }
    }
    return Closed(fence, pastes, violations);
  }
}
