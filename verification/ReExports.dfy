/** The search for an exported type declaration through re-export chains, with one guard shared by all branches. */
module ReExports {
  import opened Wrappers
  import opened SourceTree

  /** A search ends with a declaration, with none, or with a file that cannot be read. */
  datatype Search = Hit(place: Place) | Miss | Unreadable(file: string)

  /** Names a search for `name` can ever look for. */
  function Names(t: Tree, name: string): set<string> {
    {name} +
    set f, k, j | f in t.files && 0 <= k < |t.files[f].reExports| && t.files[f].reExports[k].form.Named?
                  && 0 <= j < |t.files[f].reExports[k].form.elements|
      :: t.files[f].reExports[k].form.elements[j].origin
  }

  function Places(t: Tree, name: string): set<Place> {
    set f, n | f in t.files && n in Names(t, name) :: Place(f, n)
  }

  lemma FirstNamedIsElement(elements: seq<ExportElement>, name: string) returns (j: nat)
    requires FirstNamed(elements, name).Some?
    ensures j < |elements| && elements[j].origin == FirstNamed(elements, name).value
  {
    if elements[0].name == name {
      j := 0;
    } else {
      j := FirstNamedIsElement(elements[1..], name);
      j := j + 1;
    }
  }

  lemma EdgesStayInside(t: Tree, root: string, p: Place, k: nat)
    requires p in Places(t, root) && k < |t.files[p.file].reExports| && Leads(t, p, k).Some?
    requires Leads(t, p, k).value.file in t.files
    ensures Leads(t, p, k).value in Places(t, root)
  {
    var e := t.files[p.file].reExports[k];
    if e.form.Named? {
      var j := FirstNamedIsElement(e.form.elements, p.name);
    }
  }

  /** Nothing newly seen declares its name, and everything it leads to is readable and seen. */
  ghost predicate Exhausted(t: Tree, fresh_: set<Place>, seen: set<Place>) {
    forall p | p in fresh_ :: p.file in t.files && !Declares(t, p) && LeadsInto(t, p, |t.files[p.file].reExports|, seen)
  }

  ghost predicate LeadsInto(t: Tree, p: Place, count: nat, seen: set<Place>)
    requires p.file in t.files && count <= |t.files[p.file].reExports|
  {
    forall k | 0 <= k < count && Leads(t, p, k).Some? ::
        Leads(t, p, k).value in seen && Leads(t, p, k).value.file in t.files
  }

  class ExportSearch {
    const t: Tree
    const root: string
    var seen: set<Place>

    constructor (t: Tree, root: string)
      ensures this.t == t && this.root == root && seen == {}
    {
      this.t, this.root, seen := t, root, {};
    }

    /**
     Search one place. A hit declares its name and is reached from here; a miss leaves everything newly seen exhausted;
     an unreadable file is one that something reached from here re-exports from.
     */
    method Find(p: Place) returns (r: Search)
      requires p in Places(t, root)
      modifies this
      ensures old(seen) <= seen
      ensures Answers(t, p, r)
      ensures Declares(t, p) && p !in old(seen) ==> r == Hit(p)
      ensures r.Miss? ==> p in seen && Exhausted(t, seen - old(seen), seen)
      decreases Places(t, root) - seen, 0
    {
      ReachesItself(t, p);
      if p in seen {
        return Miss;
      }
      assert p in Places(t, root) - seen;
      seen := seen + {p};
      if Declares(t, p) {
        return Hit(p);
      }
      r := FindBehind(p);
      if r.Miss? {
        assert seen - old(seen) == (seen - old(seen) - {p}) + {p};
      }
    }

    /** Search behind the re-exports of a file, in order. */
    method FindBehind(p: Place) returns (r: Search)
      requires p in Places(t, root)
      modifies this
      ensures old(seen) <= seen
      ensures Answers(t, p, r)
      ensures r.Miss? ==> LeadsInto(t, p, |t.files[p.file].reExports|, seen) && Exhausted(t, seen - old(seen), seen)
      decreases Places(t, root) - seen, 2
    {
      var reExports := t.files[p.file].reExports;
      for k := 0 to |reExports|
        invariant old(seen) <= seen
        invariant LeadsInto(t, p, k, seen)
        invariant Exhausted(t, seen - old(seen), seen)
      {
        ghost var before := seen;
        r := FindAt(p, k);
        if !r.Miss? {
          return;
        }
        ExhaustedJoins(t, old(seen), before, seen);
      }
      return Miss;
    }

    method FindAt(p: Place, k: nat) returns (r: Search)
      requires p in Places(t, root) && k < |t.files[p.file].reExports|
      modifies this
      ensures old(seen) <= seen
      ensures Answers(t, p, r)
      ensures r.Miss? ==> Exhausted(t, seen - old(seen), seen)
      ensures r.Miss? && Leads(t, p, k).Some? ==> Leads(t, p, k).value in seen && Leads(t, p, k).value.file in t.files
      decreases Places(t, root) - seen, 1
    {
      var next := Leads(t, p, k);
      if next.None? {
        return Miss;
      }
      assert Edge(t, p, next.value);
      if next.value.file !in t.files {
        UnreadableEdge(t, p, next.value);
        return Unreadable(next.value.file);
      }
      EdgesStayInside(t, root, p, k);
      r := Find(next.value);
      AnswersThrough(t, p, next.value, r);
    }
  }

  /** A hit is a declaration reached from the place; an unreadable file is one reached from it. */
  ghost predicate Answers(t: Tree, p: Place, r: Search) {
    match r
    case Hit(q) => Declares(t, q) && Reaches(t, p, q)
    case Miss => true
    case Unreadable(file) => file !in t.files && exists name :: Reaches(t, p, Place(file, name))
  }

  lemma UnreadableEdge(t: Tree, p: Place, q: Place)
    requires Edge(t, p, q) && q.file !in t.files
    ensures Answers(t, p, Unreadable(q.file))
  {
    ReachesItself(t, q);
    ReachesThrough(t, p, q, q);
    assert q == Place(q.file, q.name);
  }

  lemma AnswersThrough(t: Tree, p: Place, q: Place, r: Search)
    requires Edge(t, p, q) && Answers(t, q, r)
    ensures Answers(t, p, r)
  {
    match r
    case Hit(h) => ReachesThrough(t, p, q, h);
    case Miss =>
    case Unreadable(file) =>
      var name :| Reaches(t, q, Place(file, name));
      ReachesThrough(t, p, q, Place(file, name));
  }

  lemma ExhaustedJoins(t: Tree, start: set<Place>, middle: set<Place>, end: set<Place>)
    requires start <= middle <= end
    requires Exhausted(t, middle - start, middle) && Exhausted(t, end - middle, end)
    ensures Exhausted(t, end - start, end)
  {
    forall p | p in end - start
      ensures p.file in t.files && !Declares(t, p) && LeadsInto(t, p, |t.files[p.file].reExports|, end)
    {
      if p in middle {
        assert LeadsInto(t, p, |t.files[p.file].reExports|, middle);
      }
    }
  }

  /** From an exhausted set nothing outside it, and so no declaration, is reached. */
  lemma {:induction false} ExhaustedIsClosed(t: Tree, seen: set<Place>, path: seq<Place>)
    requires Exhausted(t, seen, seen) && Chain(t, path) && path[0] in seen
    ensures path[|path| - 1] in seen && path[|path| - 1].file in t.files && !Declares(t, path[|path| - 1])
  {
    if |path| > 1 {
      assert Edge(t, path[0], path[1]);
      var rest := path[1..];
      forall i | 0 <= i < |rest| - 1 ensures Edge(t, rest[i], rest[i + 1]) {
        assert Edge(t, path[i + 1], path[i + 2]);
      }
      ExhaustedIsClosed(t, seen, rest);
    }
  }

  ghost predicate Exported(t: Tree, p: Place) {
    exists q :: Reaches(t, p, q) && Declares(t, q)
  }

  /** Every file behind the re-exports reached from `p` can be read. */
  ghost predicate AllReadable(t: Tree, p: Place) {
    forall q | Reaches(t, p, q) :: q.file in t.files
  }

  /**
   The search from the top is complete although its branches share one guard: with all files readable it finds a
   declaration exactly when one is reached, and the one it finds is reached.
   */
  method FindExportedTypeDecl(t: Tree, p: Place) returns (r: Search)
    requires p.file in t.files
    ensures Declares(t, p) ==> r == Hit(p)
    ensures r.Hit? ==> Declares(t, r.place) && Reaches(t, p, r.place)
    ensures r.Miss? ==> !Exported(t, p) && AllReadable(t, p)
    ensures r.Unreadable? ==> !AllReadable(t, p)
    ensures AllReadable(t, p) ==> (r.Hit? <==> Exported(t, p))
  {
    var search := new ExportSearch(t, p.name);
    r := search.Find(p);
    if r.Miss? {
      assert search.seen - {} == search.seen;
      forall q | Reaches(t, p, q) ensures !Declares(t, q) && q.file in t.files {
        ghost var path :| Chain(t, path) && path[0] == p && path[|path| - 1] == q;
        ExhaustedIsClosed(t, search.seen, path);
      }
    }
  }

  // ---- Resolving a type name seen from a file ----------------------------------------------------------------------

  /**
   What a name means for the presence check: a declaration, something out of reach, or a crash on an unreadable file.
   */
  datatype Resolution = ResolvesTo(place: Place) | OutOfReach | Crash(file: string)

  function EntryOf(dir: string): string {
    dir + "/src/index.ts"
  }

  /** The place a name imported into a file is looked for, if it is looked for at all. */
  function ImportedPlace(t: Tree, packages: map<string, string>, p: Place): Option<Place>
    requires p.file in t.files
  {
    if p.name !in t.files[p.file].imports then None
    else
      var i := t.files[p.file].imports[p.name];
      if StartsWithDot(i.specifier) then
        if EndsWithTs(i.specifier) then Some(Place(t.resolve(p.file, i.specifier), i.imported)) else None
      else if i.specifier in packages && EntryOf(packages[i.specifier]) in t.files
      then Some(Place(EntryOf(packages[i.specifier]), i.imported))
      else None
  }

  /** The search from a place: a declaration reached from it, none when none is, a crash on an unreadable file. */
  ghost predicate Searched(t: Tree, origin: Place, r: Resolution) {
    match r
    case ResolvesTo(q) => Declares(t, q) && Reaches(t, origin, q)
    case OutOfReach => !Exported(t, origin) && AllReadable(t, origin)
    case Crash(_) => !AllReadable(t, origin)
  }

  /** Relative import of a `.ts` file. */
  predicate RelativeTs(i: Import) {
    "." <= i.specifier && |i.specifier| >= 3 && i.specifier[|i.specifier| - 3..] == ".ts"
  }

  /** Import of a workspace package whose entry file can be read. */
  predicate Workspace(t: Tree, packages: map<string, string>, i: Import) {
    !("." <= i.specifier) && i.specifier in packages && packages[i.specifier] + "/src/index.ts" in t.files
  }

  /**
   A local declaration first. Otherwise an import decides, by the name it has where it is exported: a relative `.ts`
   file and the entry file of a workspace package are searched for that name; without an import, and with any other, the
   name is out of reach.
   */
  method DeclForTypeName(t: Tree, packages: map<string, string>, p: Place) returns (r: Resolution)
    requires p.file in t.files
    ensures p.name in t.files[p.file].types ==> r == ResolvesTo(p)
    ensures p.name !in t.files[p.file].types && p.name !in t.files[p.file].imports ==> r == OutOfReach
    ensures p.name !in t.files[p.file].types && p.name in t.files[p.file].imports ==>
      var i := t.files[p.file].imports[p.name];
      if RelativeTs(i) then Searched(t, Place(t.resolve(p.file, i.specifier), i.imported), r)
      else if Workspace(t, packages, i) then
        Searched(t, Place(packages[i.specifier] + "/src/index.ts", i.imported), r)
      else r == OutOfReach
  {
    if Declares(t, p) {
      return ResolvesTo(p);
    }
    if p.name in t.files[p.file].imports {
      DotPrefix(t.files[p.file].imports[p.name].specifier);
    }
    var origin := ImportedPlace(t, packages, p);
    if origin.None? {
      return OutOfReach;
    }
    ReachesItself(t, origin.value);
    if origin.value.file !in t.files {
      return Crash(origin.value.file);
    }
    var s := FindExportedTypeDecl(t, origin.value);
    match s
    case Hit(q) => r := ResolvesTo(q);
    case Miss => r := OutOfReach;
    case Unreadable(file) => r := Crash(file);
  }
}
