/**
 The publication of a release bundle to a registry: idempotent, resumable after a crash between any two registry
 writes, and moving `latest` of the release entry package last.
 */
module Publication {
  const RELEASE_ENTRY_PACKAGE := "@deepseek-ai/dsh"
  const LATEST_DIST_TAG := "latest"

  datatype Release = Release(name: string, version: string)

  datatype Tag = Tag(name: string, tag: string)

  /** What the registry holds: the integrity of each published version, and the version of each dist-tag. */
  datatype Registry = Registry(releases: map<Release, string>, tags: map<Tag, string>)

  datatype Package = Package(name: string, integrity: string)

  datatype Bundle = Bundle(version: string, distTag: string, packages: seq<Package>)

  /** What loading a bundle guarantees: at least one package, no name twice. */
  ghost predicate Loaded(b: Bundle) {
    b.packages != [] && forall i, j | 0 <= i < j < |b.packages| :: b.packages[i].name != b.packages[j].name
  }

  /** Dist-tags point at published versions. */
  ghost predicate WellFormed(r: Registry) {
    forall t {:trigger r.tags[t]} | t in r.tags :: Release(t.name, r.tags[t]) in r.releases
  }

  /** A single registry write; a crash may fall between any two, also between a publication and its dist-tag. */
  datatype Write = PutRelease(release: Release, integrity: string) | PutTag(tag: Tag, version: string)

  function Apply(r: Registry, w: Write): Registry {
    match w
    case PutRelease(release, integrity) => r.(releases := r.releases[release := integrity])
    case PutTag(tag, version) => r.(tags := r.tags[tag := version])
  }

  function After(r: Registry, ws: seq<Write>): Registry
    decreases ws
  {
    if ws == [] then r else After(Apply(r, ws[0]), ws[1..])
  }

  lemma {:induction false} AfterJoins(r: Registry, a: seq<Write>, b: seq<Write>)
    ensures After(r, a + b) == After(After(r, a), b)
    decreases a
  {
    if a == [] {
      assert a + b == b;
    } else {
      assert (a + b)[1..] == a[1..] + b;
      AfterJoins(Apply(r, a[0]), a[1..], b);
    }
  }

  lemma AfterFew(r: Registry, ws: seq<Write>)
    ensures |ws| == 0 ==> After(r, ws) == r
    ensures |ws| == 1 ==> After(r, ws) == Apply(r, ws[0])
    ensures |ws| == 2 ==> After(r, ws) == Apply(Apply(r, ws[0]), ws[1])
  {
    if |ws| == 1 {
      assert After(Apply(r, ws[0]), ws[1..]) == Apply(r, ws[0]);
    } else if |ws| == 2 {
      var r', rest := Apply(r, ws[0]), ws[1..];
      assert After(Apply(r', rest[0]), rest[1..]) == Apply(r', ws[1]);
      assert After(r', rest) == Apply(r', ws[1]);
    }
  }

  // ---- The writes of one run ---------------------------------------------------------------------------------------

  datatype End = Completed | Conflict(name: string) | NoRelease(name: string)

  /** The writes a run issues, in order, and how it ends when nothing interrupts it. */
  datatype Script = Script(writes: seq<Write>, end: End)

  function HasTag(r: Registry, name: string, tag: string, version: string): bool {
    Tag(name, tag) in r.tags && r.tags[Tag(name, tag)] == version
  }

  /** Publish under the dist-tag if the version is absent; then set the dist-tag unless it is set. */
  function PackageWrites(b: Bundle, p: Package, r: Registry): seq<Write> {
    if Release(p.name, b.version) !in r.releases then
      [PutRelease(Release(p.name, b.version), p.integrity), PutTag(Tag(p.name, b.distTag), b.version)]
    else if HasTag(r, p.name, b.distTag, b.version) then []
    else [PutTag(Tag(p.name, b.distTag), b.version)]
  }

  predicate Conflicts(b: Bundle, p: Package, r: Registry) {
    Release(p.name, b.version) in r.releases && r.releases[Release(p.name, b.version)] != p.integrity
  }

  /**
   Move `latest` of the entry package, unless it is there already; the registry refuses a tag on an absent version.
   */
  function EntryScript(b: Bundle, r: Registry): Script {
    if HasTag(r, RELEASE_ENTRY_PACKAGE, LATEST_DIST_TAG, b.version) then Script([], Completed)
    else if Release(RELEASE_ENTRY_PACKAGE, b.version) !in r.releases then Script([], NoRelease(RELEASE_ENTRY_PACKAGE))
    else Script([PutTag(Tag(RELEASE_ENTRY_PACKAGE, LATEST_DIST_TAG), b.version)], Completed)
  }

  function ScriptFrom(b: Bundle, k: nat, r: Registry): Script
    requires k <= |b.packages|
    decreases |b.packages| - k
  {
    if k == |b.packages| then EntryScript(b, r)
    else if Conflicts(b, b.packages[k], r) then Script([], Conflict(b.packages[k].name))
    else
      var ws := PackageWrites(b, b.packages[k], r);
      var rest := ScriptFrom(b, k + 1, After(r, ws));
      Script(ws + rest.writes, rest.end)
  }

  function RunOf(b: Bundle, r: Registry): Script {
    ScriptFrom(b, 0, r)
  }

  /** The registry when a run is cut off after `cut` writes. */
  function CutOff(b: Bundle, r: Registry, cut: nat): Registry
    requires cut <= |RunOf(b, r).writes|
  {
    After(r, RunOf(b, r).writes[..cut])
  }

  // ---- What is in place --------------------------------------------------------------------------------------------

  /** The package is published with the bundle's integrity and its dist-tag names the version. */
  predicate InPlace(b: Bundle, p: Package, r: Registry) {
    && Release(p.name, b.version) in r.releases && r.releases[Release(p.name, b.version)] == p.integrity
    && HasTag(r, p.name, b.distTag, b.version)
  }

  ghost predicate AllInPlace(b: Bundle, k: nat, r: Registry)
    requires k <= |b.packages|
  {
    forall i | 0 <= i < k :: InPlace(b, b.packages[i], r)
  }

  lemma PackageLands(b: Bundle, p: Package, r: Registry)
    requires !Conflicts(b, p, r)
    ensures InPlace(b, p, After(r, PackageWrites(b, p, r)))
  {
    AfterFew(r, PackageWrites(b, p, r));
  }

  /** A package in place stays so under the writes of the packages after it and of the entry package. */
  lemma {:induction false} LaterWritesKeepInPlace(b: Bundle, i: nat, k: nat, r: Registry, cut: nat)
    requires Loaded(b) && i < k <= |b.packages| && InPlace(b, b.packages[i], r)
    requires cut <= |ScriptFrom(b, k, r).writes|
    ensures InPlace(b, b.packages[i], After(r, ScriptFrom(b, k, r).writes[..cut]))
    decreases |b.packages| - k
  {
    var s := ScriptFrom(b, k, r);
    if k < |b.packages| && !Conflicts(b, b.packages[k], r) {
      var ws := PackageWrites(b, b.packages[k], r);
      var rest := ScriptFrom(b, k + 1, After(r, ws));
      assert b.packages[i].name != b.packages[k].name;
      if cut <= |ws| {
        OtherPackageKeepsInPlace(b, b.packages[i], b.packages[k], r, cut);
        assert s.writes[..cut] == ws[..cut];
      } else {
        OtherPackageKeepsInPlace(b, b.packages[i], b.packages[k], r, |ws|);
        assert ws[..|ws|] == ws;
        LaterWritesKeepInPlace(b, i, k + 1, After(r, ws), cut - |ws|);
        assert s.writes[..cut] == ws + rest.writes[..cut - |ws|];
        AfterJoins(r, ws, rest.writes[..cut - |ws|]);
      }
    } else {
      AfterFew(r, s.writes[..cut]);
    }
  }

  lemma OtherPackageKeepsInPlace(b: Bundle, p: Package, other: Package, r: Registry, cut: nat)
    requires p.name != other.name && InPlace(b, p, r) && cut <= |PackageWrites(b, other, r)|
    ensures InPlace(b, p, After(r, PackageWrites(b, other, r)[..cut]))
  {
    AfterFew(r, PackageWrites(b, other, r)[..cut]);
  }

  // ---- Resuming after a crash --------------------------------------------------------------------------------------

  lemma PackageKeepsWellFormed(b: Bundle, p: Package, r: Registry, cut: nat)
    requires WellFormed(r) && cut <= |PackageWrites(b, p, r)|
    ensures WellFormed(After(r, PackageWrites(b, p, r)[..cut]))
  {
    var ws := PackageWrites(b, p, r);
    AfterFew(r, ws[..cut]);
    if cut == 0 {
      assert ws[..0] == [];
    }
  }

  /** A package whose writes were cut off issues exactly the writes it had left. */
  lemma PackageResumes(b: Bundle, p: Package, r: Registry, cut: nat)
    requires WellFormed(r) && !Conflicts(b, p, r) && cut <= |PackageWrites(b, p, r)|
    ensures
      var r' := After(r, PackageWrites(b, p, r)[..cut]);
      !Conflicts(b, p, r') && PackageWrites(b, p, r') == PackageWrites(b, p, r)[cut..]
  {
    var ws := PackageWrites(b, p, r);
    AfterFew(r, ws[..cut]);
    if cut == 0 {
      assert ws[..0] == [] && ws[0..] == ws;
    } else if cut < |ws| {
      assert ws[..1] == [ws[0]] && ws[1..] == [ws[1]];
    } else {
      assert ws[..cut] == ws && ws[cut..] == [];
    }
  }

  lemma EntryResumes(b: Bundle, r: Registry, cut: nat)
    requires cut <= |EntryScript(b, r).writes|
    ensures
      var s := EntryScript(b, r);
      EntryScript(b, After(r, s.writes[..cut])) == Script(s.writes[cut..], s.end)
  {
    var ws := EntryScript(b, r).writes;
    AfterFew(r, ws[..cut]);
    if cut == 0 {
      assert ws[..0] == [] && ws[0..] == ws;
    } else {
      assert ws[..cut] == ws && ws[cut..] == [];
    }
  }

  /** The script of a package that is not yet through, cut inside that package's own writes. */
  lemma ScriptStep(b: Bundle, k: nat, r: Registry)
    requires k < |b.packages| && !Conflicts(b, b.packages[k], r)
    ensures
      var ws := PackageWrites(b, b.packages[k], r);
      var rest := ScriptFrom(b, k + 1, After(r, ws));
      ScriptFrom(b, k, r) == Script(ws + rest.writes, rest.end)
  {}

  lemma CutsOfJoin<T>(a: seq<T>, b: seq<T>, cut: nat)
    requires cut <= |a + b|
    ensures cut <= |a| ==> (a + b)[..cut] == a[..cut] && (a + b)[cut..] == a[cut..] + b
    ensures cut >= |a| ==> (a + b)[..cut] == a + b[..cut - |a|] && (a + b)[cut..] == b[cut - |a|..]
  {}

  /**
   Resumption. A rerun of the same bundle from the registry a crash left behind, after any number of writes, issues
   exactly the writes the crashed run had left and ends as that run would have ended.
   */
  lemma {:induction false} RerunIssuesTheRest(b: Bundle, k: nat, r: Registry, cut: nat)
    requires Loaded(b) && WellFormed(r) && k <= |b.packages| && cut <= |ScriptFrom(b, k, r).writes|
    ensures
      var s := ScriptFrom(b, k, r);
      ScriptFrom(b, k, After(r, s.writes[..cut])) == Script(s.writes[cut..], s.end)
    decreases |b.packages| - k
  {
    var s := ScriptFrom(b, k, r);
    if k == |b.packages| {
      EntryResumes(b, r, cut);
    } else if Conflicts(b, b.packages[k], r) {
    } else {
      var p := b.packages[k];
      var ws := PackageWrites(b, p, r);
      var rest := ScriptFrom(b, k + 1, After(r, ws));
      CutsOfJoin(ws, rest.writes, cut);
      if cut <= |ws| {
        ResumeInsidePackage(b, k, r, cut);
      } else {
        var c := cut - |ws|;
        assert ws[..|ws|] == ws;
        PackageKeepsWellFormed(b, p, r, |ws|);
        RerunIssuesTheRest(b, k + 1, After(r, ws), c);
        ResumeBehindPackage(b, k, r, c);
      }
    }
  }

  lemma ResumeInsidePackage(b: Bundle, k: nat, r: Registry, cut: nat)
    requires WellFormed(r) && k < |b.packages| && !Conflicts(b, b.packages[k], r)
    requires cut <= |PackageWrites(b, b.packages[k], r)|
    ensures
      var ws := PackageWrites(b, b.packages[k], r);
      var rest := ScriptFrom(b, k + 1, After(r, ws));
      ScriptFrom(b, k, After(r, ws[..cut])) == Script(ws[cut..] + rest.writes, rest.end)
  {
    hide PackageWrites, Conflicts, After, WellFormed, ScriptFrom;
    var p := b.packages[k];
    var ws := PackageWrites(b, p, r);
    PackageResumes(b, p, r, cut);
    AfterJoins(r, ws[..cut], ws[cut..]);
    assert ws[..cut] + ws[cut..] == ws;
    ScriptStep(b, k, After(r, ws[..cut]));
  }

  lemma ResumeBehindPackage(b: Bundle, k: nat, r: Registry, c: nat)
    requires Loaded(b) && k < |b.packages| && !Conflicts(b, b.packages[k], r)
    requires c <= |ScriptFrom(b, k + 1, After(r, PackageWrites(b, b.packages[k], r))).writes|
    ensures
      var ws := PackageWrites(b, b.packages[k], r);
      var rest := ScriptFrom(b, k + 1, After(r, ws)).writes;
      var r' := After(r, ws + rest[..c]);
      r' == After(After(r, ws), rest[..c]) && ScriptFrom(b, k, r') == ScriptFrom(b, k + 1, r')
  {
    hide After, Loaded;
    var p := b.packages[k];
    var ws := PackageWrites(b, p, r);
    var rest := ScriptFrom(b, k + 1, After(r, ws)).writes;
    AfterJoins(r, ws, rest[..c]);
    PackageLands(b, p, r);
    LaterWritesKeepInPlace(b, k, k + 1, After(r, ws), c);
    var r' := After(r, ws + rest[..c]);
    assert PackageWrites(b, p, r') == [];
    ScriptStep(b, k, r');
    AfterFew(r', []);
  }

  /** The registry after a run that was cut off and rerun to its end is the registry of one uninterrupted run. */
  lemma CrashesLeaveNoTrace(b: Bundle, r: Registry, cut: nat)
    requires Loaded(b) && WellFormed(r) && cut <= |RunOf(b, r).writes|
    ensures RunOf(b, CutOff(b, r, cut)).end == RunOf(b, r).end
    ensures After(CutOff(b, r, cut), RunOf(b, CutOff(b, r, cut)).writes) == After(r, RunOf(b, r).writes)
  {
    hide ScriptFrom, After, Loaded, WellFormed;
    var ws := RunOf(b, r).writes;
    RerunIssuesTheRest(b, 0, r, cut);
    AfterJoins(r, ws[..cut], ws[cut..]);
    assert ws[..cut] + ws[cut..] == ws;
  }
}
