/** Parsed source files as the catalog generator indexes them, with its two ways of resolving a type name. */
module SourceTree {
  import opened Wrappers

  /** One import binding: the exported name it brings in, and from where. */
  datatype Import = Import(imported: string, specifier: string)

  /** `export { origin as name }`; without a rename the two are equal. */
  datatype ExportElement = ExportElement(name: string, origin: string)

  datatype ExportForm = Everything | AsNamespace | Named(elements: seq<ExportElement>)

  /** `export … from 'specifier'`. */
  datatype ReExport = ReExport(specifier: string, form: ExportForm)

  /** A file: the type names each of its type declarations references, its imports, and its re-exports in order. */
  datatype SourceFile = SourceFile(
    types: map<string, seq<string>>,
    imports: map<string, Import>,
    reExports: seq<ReExport>)

  /** The readable files by path, and the path a specifier names from a file. */
  datatype Tree = Tree(files: map<string, SourceFile>, resolve: (string, string) -> string)

  /** A name looked for in a file. */
  datatype Place = Place(file: string, name: string)

  predicate StartsWithDot(s: string) {
    s != "" && s[0] == '.'
  }

  predicate EndsWithTs(s: string) {
    |s| >= 3 && s[|s| - 3..] == ".ts"
  }

  predicate Declares(t: Tree, p: Place) {
    p.file in t.files && p.name in t.files[p.file].types
  }

  // ---- Re-export edges ---------------------------------------------------------------------------------------------

  function FirstNamed(elements: seq<ExportElement>, name: string): Option<string> {
    if elements == [] then None
    else if elements[0].name == name then Some(elements[0].origin)
    else FirstNamed(elements[1..], name)
  }

  /** The name to look for behind a re-export, if it can supply `name` at all. */
  function LookFor(e: ReExport, name: string): Option<string> {
    if !(StartsWithDot(e.specifier) && EndsWithTs(e.specifier)) then None
    else
      match e.form
      case Everything => Some(name)
      case AsNamespace => None
      case Named(elements) => FirstNamed(elements, name)
  }

  /** Where the k-th re-export of a place's file leads, if anywhere. */
  function Leads(t: Tree, p: Place, k: nat): Option<Place>
    requires p.file in t.files && k < |t.files[p.file].reExports|
  {
    var e := t.files[p.file].reExports[k];
    match LookFor(e, p.name)
    case None => None
    case Some(origin) => Some(Place(t.resolve(p.file, e.specifier), origin))
  }

  predicate Edge(t: Tree, p: Place, q: Place) {
    p.file in t.files && exists k :: 0 <= k < |t.files[p.file].reExports| && Leads(t, p, k) == Some(q)
  }

  /** The element of a named re-export that supplies the name: the first one. */
  ghost predicate Supplies(elements: seq<ExportElement>, j: int, name: string) {
    0 <= j < |elements| && elements[j].name == name && forall i | 0 <= i < j :: elements[i].name != name
  }

  /** The re-export, relative and of a `.ts` file, passes on `origin` as `name`. */
  ghost predicate PassesOn(e: ReExport, origin: string, name: string) {
    && "." <= e.specifier && |e.specifier| >= 3 && e.specifier[|e.specifier| - 3..] == ".ts"
    && match e.form
       case Everything => origin == name
       case AsNamespace => false
       case Named(elements) => exists j :: Supplies(elements, j, name) && elements[j].origin == origin
  }

  lemma {:induction false} FirstNamedSupplies(elements: seq<ExportElement>, name: string)
    ensures forall j | Supplies(elements, j, name) :: FirstNamed(elements, name) == Some(elements[j].origin)
    ensures FirstNamed(elements, name).Some? ==> exists j :: Supplies(elements, j, name)
    decreases elements
  {
    if elements != [] {
      var rest := elements[1..];
      FirstNamedSupplies(rest, name);
      if elements[0].name == name {
        assert Supplies(elements, 0, name);
      } else {
        forall j | Supplies(elements, j, name) ensures Supplies(rest, j - 1, name) {
          assert forall i | 0 <= i < j - 1 :: rest[i] == elements[i + 1];
        }
        if j :| Supplies(rest, j, name) {
          assert forall i | 0 < i < j + 1 :: elements[i] == rest[i - 1];
          assert Supplies(elements, j + 1, name);
        }
      }
    }
  }

  /** A place leads to another exactly along a re-export of its file that passes the other's name on as its own. */
  lemma EdgeExactly(t: Tree, p: Place, q: Place)
    ensures Edge(t, p, q) <==>
            p.file in t.files
            && exists e | e in t.files[p.file].reExports ::
                 PassesOn(e, q.name, p.name) && q.file == t.resolve(p.file, e.specifier)
  {
    if p.file in t.files {
      var es := t.files[p.file].reExports;
      forall k | 0 <= k < |es|
        ensures Leads(t, p, k) == Some(q) <==>
                PassesOn(es[k], q.name, p.name) && q.file == t.resolve(p.file, es[k].specifier)
      {
        DotPrefix(es[k].specifier);
        if es[k].form.Named? {
          FirstNamedSupplies(es[k].form.elements, p.name);
        }
      }
    }
  }

  lemma DotPrefix(s: string)
    ensures StartsWithDot(s) <==> "." <= s
    ensures EndsWithTs(s) <==> |s| >= 3 && s[|s| - 3..] == ".ts"
  {
    assert s != [] ==> s[..1] == [s[0]];
  }

  ghost predicate Chain(t: Tree, path: seq<Place>) {
    path != [] && forall i | 0 <= i < |path| - 1 :: Edge(t, path[i], path[i + 1])
  }

  /** `q` is reached from `p` along `export *` and renaming `export { a as b }` edges. */
  ghost predicate Reaches(t: Tree, p: Place, q: Place) {
    exists path :: Chain(t, path) && path[0] == p && path[|path| - 1] == q
  }

  lemma ReachesItself(t: Tree, p: Place)
    ensures Reaches(t, p, p)
  {
    assert Chain(t, [p]);
  }

  lemma ReachesThrough(t: Tree, p: Place, q: Place, r: Place)
    requires Edge(t, p, q) && Reaches(t, q, r)
    ensures Reaches(t, p, r)
  {
    var path :| Chain(t, path) && path[0] == q && path[|path| - 1] == r;
    var longer := [p] + path;
    forall i | 0 <= i < |longer| - 1 ensures Edge(t, longer[i], longer[i + 1]) {
      if i > 0 {
        assert longer[i] == path[i - 1] && longer[i + 1] == path[i];
        assert Edge(t, path[i - 1], path[i - 1 + 1]);
      }
    }
    assert Chain(t, longer);
  }
}
