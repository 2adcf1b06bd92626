/**
 The walk over Project References: it starts from both aggregate configs and reports each reference that enters a
 project split into Host and Client leaves other than by the leaf of the referencing config's face.
 */
module ReferenceFaces {
  import opened Strings
  import opened Wrappers

  /** An absolute path by its components. */
  type Path = seq<string>

  datatype Face = Host | Client

  /** A config file: what the walk reads of it, or that it does not parse. */
  datatype File = Config(extends_: Option<string>, references: seq<string>) | Broken

  /** The repository: its root, its config files, and the package directories the manifest patterns match. */
  datatype Repo = Repo(root: Path, files: map<Path, File>, packages: set<Path>)

  // ---- Paths -------------------------------------------------------------------------------------------------------

  function Walked(base: Path, parts: seq<string>): Path
    decreases parts
  {
    if parts == [] then base
    else
      var next := if parts[0] == "" || parts[0] == "." then base
                  else if parts[0] == ".." then (if base == [] then [] else base[..|base| - 1])
                  else base + [parts[0]];
      Walked(next, parts[1..])
  }

  function Resolve(base: Path, s: string): Path {
    Walked(if s != "" && s[0] == '/' then [] else base, SplitAt(s, '/'))
  }

  function Dirname(p: Path): Path {
    if p == [] then [] else p[..|p| - 1]
  }

  function Basename(p: Path): string {
    if p == [] then "" else p[|p| - 1]
  }

  const JSON_SUFFIX := ".json"

  predicate IsJson(p: Path) {
    var name := Basename(p);
    |name| >= |JSON_SUFFIX| && name[|name| - |JSON_SUFFIX|..] == JSON_SUFFIX
  }

  /** The config a reference names: a file, or the default config of a directory. */
  function ReferenceConfigPath(source: Path, reference: string): Path {
    var target := Resolve(Dirname(source), reference);
    if IsJson(target) then target else target + ["tsconfig.json"]
  }

  function LocalExtendsConfig(p: Path, extends_: Option<string>): Option<Path> {
    match extends_
    case None => None
    case Some(value) =>
      if value == "" || value[0] != '.' then None
      else
        var target := Resolve(Dirname(p), value);
        Some(if IsJson(target) then target else Dirname(target) + [Basename(target) + JSON_SUFFIX])
  }

  function LeafName(face: Face): string {
    if face.Host? then "tsconfig.host.json" else "tsconfig.client.json"
  }

  // ---- Split projects ----------------------------------------------------------------------------------------------

  predicate IsSplit(repo: Repo, dir: Path) {
    dir in repo.packages && dir + [LeafName(Host)] in repo.files && dir + [LeafName(Client)] in repo.files
  }

  /** The innermost split project a path lies in: of the ones that contain it, the one with the longest path. */
  function ContainingSplitRoot(repo: Repo, target: Path, n: nat): (dir: Option<Path>)
    requires n <= |target|
    ensures dir.Some? ==> |dir.value| <= n && dir.value == target[..|dir.value|] && IsSplit(repo, dir.value)
    ensures forall k | (if dir.Some? then |dir.value| else -1) < k <= n :: !IsSplit(repo, target[..k])
    decreases n
  {
    if IsSplit(repo, target[..n]) then Some(target[..n])
    else if n == 0 then None
    else ContainingSplitRoot(repo, target, n - 1)
  }

  function SplitRootOf(repo: Repo, target: Path): Option<Path> {
    ContainingSplitRoot(repo, target, |target|)
  }

  // ---- The face of a config ----------------------------------------------------------------------------------------

  /** The face a config has by its own path. */
  function OwnFace(repo: Repo, p: Path): Option<Face> {
    if Basename(p) == LeafName(Host) then Some(Host)
    else if Basename(p) == LeafName(Client) then Some(Client)
    else if p == repo.root + ["tsconfig.base.json"] then Some(Host)
    else if p == repo.root + ["tsconfig.base.client.json"] then Some(Client)
    else None
  }

  /** The config that a config extends, when it is a file of the repository. */
  function Parent(repo: Repo, p: Path): Option<Path> {
    if p in repo.files && repo.files[p].Config? then
      var parent := LocalExtendsConfig(p, repo.files[p].extends_);
      if parent.Some? && parent.value in repo.files then parent else None
    else None
  }

  /** The face found by following at most n `extends`. */
  function FaceWithin(repo: Repo, p: Path, n: nat): Option<Face>
    decreases n
  {
    if OwnFace(repo, p).Some? then OwnFace(repo, p)
    else if n == 0 || Parent(repo, p).None? then None
    else FaceWithin(repo, Parent(repo, p).value, n - 1)
  }

  /** The `extends` chain of a config leads to a config with this face of its own, and to none with a face before it. */
  ghost predicate HasFace(repo: Repo, p: Path, face: Face) {
    exists n: nat :: FaceWithin(repo, p, n) == Some(face)
  }

  /** k steps up from a config without a face before: where one is. */
  ghost predicate LeadsTo(repo: Repo, p: Path, q: Path, k: nat)
    decreases k
  {
    if k == 0 then p == q
    else OwnFace(repo, p).None? && Parent(repo, p).Some? && LeadsTo(repo, Parent(repo, p).value, q, k - 1)
  }

  lemma {:induction false} LeadsOn(repo: Repo, p: Path, q: Path, k: nat)
    requires LeadsTo(repo, p, q, k) && OwnFace(repo, q).None? && Parent(repo, q).Some?
    ensures LeadsTo(repo, p, Parent(repo, q).value, k + 1)
    decreases k
  {
    hide OwnFace, Parent;
    if k > 0 {
      LeadsOn(repo, Parent(repo, p).value, q, k - 1);
    } else {
      assert LeadsTo(repo, Parent(repo, q).value, Parent(repo, q).value, 0);
    }
  }

  lemma {:induction false} FaceFartherUp(repo: Repo, p: Path, q: Path, k: nat, n: nat)
    requires LeadsTo(repo, p, q, k)
    ensures FaceWithin(repo, p, k + n) == FaceWithin(repo, q, n)
    decreases k
  {
    hide OwnFace, Parent;
    if k > 0 {
      FaceFartherUp(repo, Parent(repo, p).value, q, k - 1, n);
    }
  }

  lemma {:induction false} LittleIsEnough(repo: Repo, p: Path, m: nat, n: nat)
    requires FaceWithin(repo, p, m).Some? && m <= n
    ensures FaceWithin(repo, p, n) == FaceWithin(repo, p, m)
    decreases m
  {
    hide OwnFace, Parent;
    if OwnFace(repo, p).None? {
      LittleIsEnough(repo, Parent(repo, p).value, m - 1, n - 1);
    }
  }

  /** A chain that comes back to where it was has no face. */
  lemma {:induction false} CycleHasNoFace(repo: Repo, p: Path, k: nat, n: nat)
    requires LeadsTo(repo, p, p, k) && k > 0
    ensures FaceWithin(repo, p, n).None?
    decreases n
  {
    hide *;
    if n >= k {
      FaceFartherUp(repo, p, p, k, n - k);
      CycleHasNoFace(repo, p, k, n - k);
    } else {
      FaceFartherUp(repo, p, p, k, 0);
      NoFaceBelowCycle(repo, p, p, k);
      if FaceWithin(repo, p, n).Some? {
        LittleIsEnough(repo, p, n, k);
      }
    }
  }

  lemma NoFaceBelowCycle(repo: Repo, p: Path, q: Path, k: nat)
    requires LeadsTo(repo, p, q, k) && k > 0
    ensures FaceWithin(repo, p, 0).None?
  {
    hide OwnFace, Parent;
  }

  /** What the search has seen leads, without a face on the way, to where the search is. */
  ghost predicate SeenLeads(repo: Repo, seen: set<Path>, p: Path) {
    forall q | q in seen :: exists k: nat :: k > 0 && LeadsTo(repo, q, p, k)
  }

  lemma SeenLeadsOn(repo: Repo, seen: set<Path>, p: Path)
    requires SeenLeads(repo, seen, p) && OwnFace(repo, p).None? && Parent(repo, p).Some?
    ensures SeenLeads(repo, seen + {p}, Parent(repo, p).value)
  {
    var up := Parent(repo, p).value;
    forall q | q in seen + {p} ensures exists k: nat :: k > 0 && LeadsTo(repo, q, up, k) {
      if q in seen {
        var k: nat :| k > 0 && LeadsTo(repo, q, p, k);
        LeadsOn(repo, q, p, k);
      } else {
        assert LeadsTo(repo, p, p, 0);
        LeadsOn(repo, p, p, 0);
      }
    }
  }

  /** Without a face before it, the `extends` chain leads to a config that does not parse. */
  ghost predicate BrokenAbove(repo: Repo, p: Path, q: Path) {
    q in repo.files && repo.files[q].Broken? && exists k: nat :: LeadsTo(repo, p, q, k)
  }

  lemma BrokenFartherUp(repo: Repo, p: Path, q: Path)
    requires OwnFace(repo, p).None? && Parent(repo, p).Some? && BrokenAbove(repo, Parent(repo, p).value, q)
    ensures BrokenAbove(repo, p, q)
  {
    hide OwnFace, Parent;
    var k: nat :| LeadsTo(repo, Parent(repo, p).value, q, k);
    assert LeadsTo(repo, p, q, k + 1);
  }

  lemma HereLeadsHere(repo: Repo, p: Path)
    ensures LeadsTo(repo, p, p, 0)
  {}

  lemma BaseNames(root: Path)
    ensures forall name :: Basename(root + [name]) == name
    ensures root + ["tsconfig.base.json"] != root + ["tsconfig.base.client.json"]
    ensures "tsconfig.base.json" != "tsconfig.host.json" && "tsconfig.base.json" != "tsconfig.client.json"
    ensures "tsconfig.base.client.json" != "tsconfig.host.json"
    ensures "tsconfig.base.client.json" != "tsconfig.client.json"
    ensures "tsconfig.host.json" != "tsconfig.client.json"
  {
    assert (root + ["tsconfig.base.json"])[|root|] != (root + ["tsconfig.base.client.json"])[|root|] by {
      assert |"tsconfig.base.json"| != |"tsconfig.base.client.json"|;
    }
    assert "tsconfig.base.json"[9] == 'b' && "tsconfig.base.client.json"[9] == 'b';
    assert "tsconfig.host.json"[9] == 'h' && "tsconfig.client.json"[9] == 'c';
  }

  /**
   Follows `extends` to a face; reads each config on the way once, so that a cycle of `extends` ends without a face.
   */
  method ProjectFace(repo: Repo, p: Path, seen: set<Path>) returns (r: Result<Option<Face>, Path>)
    requires p in repo.files && repo.files[p].Config? && SeenLeads(repo, seen, p) && seen <= repo.files.Keys
    ensures r.Ok? ==> forall face :: HasFace(repo, p, face) <==> r.value == Some(face)
    ensures r.Err? ==> BrokenAbove(repo, p, r.error)
    ensures Basename(p) == "tsconfig.host.json" ==> r == Ok(Some(Host))
    ensures Basename(p) == "tsconfig.client.json" ==> r == Ok(Some(Client))
    ensures p == repo.root + ["tsconfig.base.json"] ==> r == Ok(Some(Host))
    ensures p == repo.root + ["tsconfig.base.client.json"] ==> r == Ok(Some(Client))
    decreases repo.files.Keys - seen
  {
    BaseNames(repo.root);
    HereLeadsHere(repo, p);
    var own := OwnFace(repo, p);
    if own.Some? {
      assert FaceWithin(repo, p, 0) == own;
      return Ok(own);
    }
    if p in seen {
      assert forall face :: !HasFace(repo, p, face) by {
        var k: nat :| k > 0 && LeadsTo(repo, p, p, k);
        forall n: nat ensures FaceWithin(repo, p, n).None? {
          CycleHasNoFace(repo, p, k, n);
        }
      }
      return Ok(None);
    }
    var parent := LocalExtendsConfig(p, repo.files[p].extends_);
    if parent.None? || parent.value !in repo.files {
      assert Parent(repo, p).None?;
      return Ok(None);
    }
    if repo.files[parent.value].Broken? {
      LeadsOn(repo, p, p, 0);
      return Err(parent.value);
    }
    SeenLeadsOn(repo, seen, p);
    r := ProjectFace(repo, parent.value, seen + {p});
    if r.Err? {
      BrokenFartherUp(repo, p, r.error);
    }
    forall face ensures HasFace(repo, p, face) <==> HasFace(repo, parent.value, face) {
      FaceOfParent(repo, p, face);
    }
  }

  lemma FaceOfParent(repo: Repo, p: Path, face: Face)
    requires OwnFace(repo, p).None? && Parent(repo, p).Some?
    ensures HasFace(repo, p, face) <==> HasFace(repo, Parent(repo, p).value, face)
  {
    var up := Parent(repo, p).value;
    if n: nat :| FaceWithin(repo, p, n) == Some(face) {
      assert FaceWithin(repo, up, n - 1) == Some(face);
    }
    if n: nat :| FaceWithin(repo, up, n) == Some(face) {
      assert FaceWithin(repo, p, n + 1) == Some(face);
    }
  }

  // ---- Edges -------------------------------------------------------------------------------------------------------

  /** A reference that enters a split project names the leaf of the referencing config's face. */
  ghost predicate Right(repo: Repo, source: Path, reference: string) {
    var target := ReferenceConfigPath(source, reference);
    var split := SplitRootOf(repo, target);
    split.None? || exists face :: HasFace(repo, source, face) && target == split.value + [LeafName(face)]
  }

  predicate Refers(repo: Repo, source: Path, reference: string) {
    source in repo.files && repo.files[source].Config? && reference in repo.files[source].references
  }

  predicate Aggregate(repo: Repo, p: Path) {
    p == repo.root + [LeafName(Host)] || p == repo.root + [LeafName(Client)]
  }

  /** A path of references from an aggregate; `right` asks that each of them is right. */
  ghost predicate Route(repo: Repo, route: seq<Path>, right: bool) {
    && route != [] && Aggregate(repo, route[0])
    && forall i | 0 <= i < |route| - 1 :: Step(repo, route[i], route[i + 1], right)
  }

  ghost predicate Step(repo: Repo, source: Path, target: Path, right: bool) {
    exists reference :: Refers(repo, source, reference) && target == ReferenceConfigPath(source, reference)
                        && (right ==> Right(repo, source, reference))
  }

  ghost predicate Reached(repo: Repo, p: Path, right: bool) {
    p in repo.files && exists route :: Route(repo, route, right) && route[|route| - 1] == p
  }

  /** The walk is to report: a reference that is not right, of a config reached by right references only. */
  ghost predicate Wrong(repo: Repo, source: Path, reference: string) {
    Reached(repo, source, true) && Refers(repo, source, reference) && !Right(repo, source, reference)
  }

  // ---- The walk ----------------------------------------------------------------------------------------------------

  /** What a diagnostic says: the reference, the split project it enters, and the face of the config, if it has one. */
  datatype Violation = Violation(config: Path, reference: string, split: Path, face: Option<Face>)

  /** The violation describes a reference of its config that is not right. */
  ghost predicate Describes(repo: Repo, v: Violation) {
    && Refers(repo, v.config, v.reference) && !Right(repo, v.config, v.reference)
    && SplitRootOf(repo, ReferenceConfigPath(v.config, v.reference)) == Some(v.split)
    && forall face :: HasFace(repo, v.config, face) <==> v.face == Some(face)
  }

  ghost function References(repo: Repo, p: Path): multiset<string> {
    if p in repo.files && repo.files[p].Config? then multiset(repo.files[p].references) else multiset{}
  }

  /**
   Among the violations are those of one config, each as often as the config lists the reference, and nothing else.
   */
  ghost predicate Exactly(repo: Repo, p: Path, listed: multiset<string>, violations: seq<Violation>) {
    forall v :: multiset(violations)[v] == if v.config == p && Describes(repo, v) then listed[v.reference] else 0
  }

  ghost predicate Accepted(repo: Repo, p: Path, references: seq<string>, targets: seq<Path>) {
    && (forall i | 0 <= i < |targets| :: Step(repo, p, targets[i], true))
    && (forall i | 0 <= i < |references| && Right(repo, p, references[i]) ::
          ReferenceConfigPath(p, references[i]) in targets)
  }

  lemma DescribedOnce(repo: Repo, v: Violation, w: Violation)
    requires Describes(repo, v) && Describes(repo, w) && v.config == w.config && v.reference == w.reference
    ensures v == w
  {
    hide HasFace, SplitRootOf, ReferenceConfigPath, Right;
    assert forall f :: v.face == Some(f) <==> w.face == Some(f);
    assert v.face.Some? ==> w.face == Some(v.face.value);
    assert w.face.Some? ==> v.face == Some(w.face.value);
  }

  lemma RightByFace(repo: Repo, p: Path, reference: string, face: Option<Face>)
    requires forall f :: HasFace(repo, p, f) <==> face == Some(f)
    ensures
      var target := ReferenceConfigPath(p, reference);
      var split := SplitRootOf(repo, target);
      Right(repo, p, reference) <==> split.None? || (face.Some? && target == split.value + [LeafName(face.value)])
  {
    hide HasFace, SplitRootOf, ReferenceConfigPath, LeafName;
  }

  lemma OneMoreViolation(repo: Repo, p: Path, listed: multiset<string>, violations: seq<Violation>, v: Violation)
    requires Exactly(repo, p, listed, violations) && v.config == p && Describes(repo, v)
    ensures Exactly(repo, p, listed + multiset{v.reference}, violations + [v])
  {
    hide Describes;
    forall w ensures multiset(violations + [v])[w]
                     == if w.config == p && Describes(repo, w) then (listed + multiset{v.reference})[w.reference] else 0
    {
      if w != v && w.config == p && w.reference == v.reference && Describes(repo, w) {
        DescribedOnce(repo, v, w);
      }
    }
  }

  lemma OneMoreRightReference(repo: Repo, p: Path, listed: multiset<string>, violations: seq<Violation>,
        reference: string)
    requires Exactly(repo, p, listed, violations) && Right(repo, p, reference)
    ensures Exactly(repo, p, listed + multiset{reference}, violations)
  {
    hide Right, HasFace, SplitRootOf, ReferenceConfigPath;
  }

  lemma OneMoreTarget(repo: Repo, p: Path, references: seq<string>, targets: seq<Path>, reference: string)
    requires Accepted(repo, p, references, targets) && Refers(repo, p, reference)
    ensures Right(repo, p, reference) ==>
              Accepted(repo, p, references + [reference], targets + [ReferenceConfigPath(p, reference)])
    ensures !Right(repo, p, reference) ==> Accepted(repo, p, references + [reference], targets)
  {
    hide Right, ReferenceConfigPath, Refers;
  }

  /** The references of one config: the targets of the right ones, and a violation for each of the others. */
  method CheckReferences(repo: Repo, p: Path, face: Option<Face>) returns (violations: seq<Violation>,
        targets: seq<Path>)
    requires p in repo.files && repo.files[p].Config?
    requires forall f :: HasFace(repo, p, f) <==> face == Some(f)
    ensures Exactly(repo, p, References(repo, p), violations)
    ensures Accepted(repo, p, repo.files[p].references, targets)
  {
    hide Right, Exactly, HasFace, ReferenceConfigPath, SplitRootOf, LeafName, Accepted;
    var references := repo.files[p].references;
    violations, targets := [], [];
    NothingChecked(repo, p);
    for i := 0 to |references|
      invariant Exactly(repo, p, multiset(references[..i]), violations)
      invariant Accepted(repo, p, references[..i], targets)
    {
      var reference := references[i];
      var target := ReferenceConfigPath(p, reference);
      var split := SplitRootOf(repo, target);
      RightByFace(repo, p, reference, face);
      assert references[..i + 1] == references[..i] + [reference];
      OneMoreTarget(repo, p, references[..i], targets, reference);
      if split.Some? && (face.None? || target != split.value + [LeafName(face.value)]) {
        var v := Violation(p, reference, split.value, face);
        OneMoreViolation(repo, p, multiset(references[..i]), violations, v);
        violations := violations + [v];
        continue;
      }
      OneMoreRightReference(repo, p, multiset(references[..i]), violations, reference);
      targets := targets + [target];
    }
    assert references[..|references|] == references;
  }

  lemma NothingChecked(repo: Repo, p: Path)
    ensures Exactly(repo, p, multiset{}, []) && Accepted(repo, p, [], [])
  {}

  /** The violations of the visited configs, each as often as its config lists the reference, and nothing else. */
  ghost predicate ExactlyOf(repo: Repo, visited: set<Path>, violations: seq<Violation>) {
    forall v :: multiset(violations)[v]
                == if v.config in visited && Describes(repo, v) then References(repo, v.config)[v.reference] else 0
  }

  lemma OneMoreConfig(repo: Repo, visited: set<Path>, p: Path, violations: seq<Violation>, more: seq<Violation>)
    requires ExactlyOf(repo, visited, violations) && p !in visited && Exactly(repo, p, References(repo, p), more)
    ensures ExactlyOf(repo, visited + {p}, violations + more)
  {
    hide Describes, References;
  }

  ghost predicate Routed(repo: Repo, p: Path) {
    exists route :: Route(repo, route, true) && route[|route| - 1] == p
  }

  /** Nothing is lost: what an aggregate or a visited config leads to is visited, pending or no file. */
  ghost predicate NothingLost(repo: Repo, visited: set<Path>, pending: set<Path>) {
    && (forall p | Aggregate(repo, p) && p in repo.files :: p in visited || p in pending)
    && (forall p, q {:trigger Step(repo, p, q, true)} | p in visited && q in repo.files && Step(repo, p, q, true) ::
          q in visited || q in pending)
  }

  lemma {:induction false} AllReachedAreVisited(repo: Repo, visited: set<Path>, route: seq<Path>)
    requires NothingLost(repo, visited, {}) && Route(repo, route, true) && route[|route| - 1] in repo.files
    ensures route[|route| - 1] in visited
    decreases route
  {
    var n := |route| - 1;
    if n > 0 {
      var before := route[..n];
      assert Step(repo, route[n - 1], route[n], true);
      assert forall i | 0 <= i < n - 1 :: Step(repo, route[i], route[i + 1], true);
      assert Route(repo, before, true);
      AllReachedAreVisited(repo, visited, before);
    }
  }

  lemma RouteGoesOn(repo: Repo, p: Path, q: Path)
    requires Routed(repo, p) && Step(repo, p, q, true)
    ensures Routed(repo, q)
  {
    hide Step;
    var route :| Route(repo, route, true) && route[|route| - 1] == p;
    var longer := route + [q];
    assert forall i | 0 <= i < |route| - 1 :: Step(repo, route[i], route[i + 1], true);
    assert Route(repo, longer, true) && longer[|longer| - 1] == q;
  }

  ghost function Members(s: seq<Path>): set<Path> {
    set i | 0 <= i < |s| :: s[i]
  }

  ghost predicate AllRouted(repo: Repo, pending: seq<Path>) {
    forall i | 0 <= i < |pending| :: Routed(repo, pending[i])
  }

  lemma StartOfWalk(repo: Repo)
    ensures
      var pending := [repo.root + [LeafName(Host)], repo.root + [LeafName(Client)]];
      NothingLost(repo, {}, Members(pending)) && AllRouted(repo, pending) && ExactlyOf(repo, {}, [])
  {
    hide Step, LeafName;
    var pending := [repo.root + [LeafName(Host)], repo.root + [LeafName(Client)]];
    assert pending[0] in Members(pending) && pending[1] in Members(pending);
    assert Route(repo, [pending[0]], true) && [pending[0]][|[pending[0]]| - 1] == pending[0];
    assert Route(repo, [pending[1]], true) && [pending[1]][|[pending[1]]| - 1] == pending[1];
  }

  lemma SkipOne(repo: Repo, visited: set<Path>, pending: seq<Path>)
    requires pending != [] && NothingLost(repo, visited, Members(pending)) && AllRouted(repo, pending)
    requires var p := pending[|pending| - 1]; p in visited || p !in repo.files
    ensures
      var rest := pending[..|pending| - 1];
      NothingLost(repo, visited, Members(rest)) && AllRouted(repo, rest)
  {
    hide Step, Routed, Aggregate;
    MembersOfFront(pending);
  }

  lemma MembersOfFront(s: seq<Path>)
    requires s != []
    ensures Members(s) == Members(s[..|s| - 1]) + {s[|s| - 1]}
  {
    var n := |s| - 1;
    forall x | x in Members(s[..n]) ensures x in Members(s) {
      var i :| 0 <= i < n && s[..n][i] == x;
      assert s[i] == x;
    }
    forall x | x in Members(s) ensures x in Members(s[..n]) + {s[n]} {
      var i :| 0 <= i < |s| && s[i] == x;
      if i < n {
        assert s[..n][i] == x;
      }
    }
    assert s[n] in Members(s);
  }

  lemma MembersJoin(a: seq<Path>, b: seq<Path>)
    ensures Members(a + b) == Members(a) + Members(b)
  {
    var s := a + b;
    forall x | x in Members(a) ensures x in Members(s) {
      var i :| 0 <= i < |a| && a[i] == x;
      assert s[i] == x;
    }
    forall x | x in Members(b) ensures x in Members(s) {
      var i :| 0 <= i < |b| && b[i] == x;
      assert s[|a| + i] == x;
    }
  }

  lemma VisitOne(repo: Repo, visited: set<Path>, rest: seq<Path>, p: Path, targets: seq<Path>)
    requires p in repo.files && repo.files[p].Config? && Routed(repo, p) && AllRouted(repo, rest)
    requires NothingLost(repo, visited, Members(rest) + {p}) && Accepted(repo, p, repo.files[p].references, targets)
    ensures NothingLost(repo, visited + {p}, Members(rest + targets)) && AllRouted(repo, rest + targets)
  {
    hide Right, ReferenceConfigPath, Routed, Aggregate;
    MembersJoin(rest, targets);
    forall q | Step(repo, p, q, true) ensures q in Members(targets) {
      var references := repo.files[p].references;
      var reference :| Refers(repo, p, reference) && q == ReferenceConfigPath(p, reference)
          && Right(repo, p, reference);
      var i :| 0 <= i < |references| && references[i] == reference;
      assert q in targets;
    }
    var next := rest + targets;
    forall i | 0 <= i < |next| ensures Routed(repo, next[i]) {
      if i >= |rest| {
        assert next[i] == targets[i - |rest|];
        RouteGoesOn(repo, p, targets[i - |rest|]);
      }
    }
  }

  /**
   Each violation describes a reference the walk is to report, and is there as often as its config lists the reference.
   */
  ghost predicate Complete(repo: Repo, violations: seq<Violation>) {
    forall v :: multiset(violations)[v]
                == if Reached(repo, v.config, true)
                    && Describes(repo, v) then References(repo, v.config)[v.reference] else 0
  }

  lemma WalkEnded(repo: Repo, visited: set<Path>, violations: seq<Violation>)
    requires NothingLost(repo, visited, {}) && ExactlyOf(repo, visited, violations) && visited <= repo.files.Keys
    requires forall p | p in visited :: Routed(repo, p)
    ensures Complete(repo, violations) && forall p | Reached(repo, p, true) :: p in visited
  {
    hide Describes, References, NothingLost, Step, Aggregate;
    forall p ensures p in visited <==> Reached(repo, p, true) {
      if p in visited {
        var route :| Route(repo, route, true) && route[|route| - 1] == p;
        assert Reached(repo, p, true);
      }
      if Reached(repo, p, true) {
        var route :| Route(repo, route, true) && route[|route| - 1] == p;
        AllReachedAreVisited(repo, visited, route);
      }
    }
  }

  /** Walks from both aggregates; an unreadable config on the way is an error. */
  method CollectViolations(repo: Repo) returns (r: Result<seq<Violation>, Path>)
    ensures r.Ok? ==> Complete(repo, r.value) && forall p | Reached(repo, p, true) :: repo.files[p].Config?
    ensures r.Err? ==> exists p :: Reached(repo, p, true) && BrokenAbove(repo, p, r.error)
  {
    hide NothingLost, AllRouted, ExactlyOf, Members, Aggregate, Accepted, Exactly, HasFace, Complete, Routed, Reached;
    hide LeadsTo, OwnFace, Parent;
    var violations: seq<Violation> := [];
    var pending := [repo.root + [LeafName(Host)], repo.root + [LeafName(Client)]];
    var visited: set<Path> := {};
    StartOfWalk(repo);
    while pending != []
      invariant NothingLost(repo, visited, Members(pending)) && AllRouted(repo, pending)
      invariant visited <= repo.files.Keys && ExactlyOf(repo, visited, violations)
      invariant forall p | p in visited :: Routed(repo, p) && repo.files[p].Config?
      decreases repo.files.Keys - visited, |pending|
    {
      var p := pending[|pending| - 1];
      MembersOfFront(pending);
      LastIsRouted(repo, pending);
      if p in visited || p !in repo.files {
        SkipOne(repo, visited, pending);
        pending := pending[..|pending| - 1];
        continue;
      }
      pending := pending[..|pending| - 1];
      HereLeadsHere(repo, p);
      RoutedIsReached(repo, p);
      if repo.files[p].Broken? {
        return Err(p);
      }
      NoneSeen(repo, p);
      var face := ProjectFace(repo, p, {});
      if face.Err? {
        return Err(face.error);
      }
      var more, targets := CheckReferences(repo, p, face.value);
      OneMoreConfig(repo, visited, p, violations, more);
      VisitOne(repo, visited, pending, p, targets);
      visited := visited + {p};
      violations := violations + more;
      pending := pending + targets;
    }
    NoMembers();
    WalkEnded(repo, visited, violations);
    r := Ok(violations);
  }

  lemma RoutedIsReached(repo: Repo, p: Path)
    requires Routed(repo, p) && p in repo.files
    ensures Reached(repo, p, true)
  {}

  lemma LastIsRouted(repo: Repo, pending: seq<Path>)
    requires pending != [] && AllRouted(repo, pending)
    ensures Routed(repo, pending[|pending| - 1]) && AllRouted(repo, pending[..|pending| - 1])
  {}

  lemma NoneSeen(repo: Repo, p: Path)
    ensures SeenLeads(repo, {}, p)
  {}

  lemma NoMembers()
    ensures Members([]) == {}
  {}

  // ---- No violation ------------------------------------------------------------------------------------------------

  /** Every reference of every config that an aggregate leads to, by whatever references, is right. */
  ghost predicate AllRight(repo: Repo) {
    forall p, reference | Reached(repo, p, false) && Refers(repo, p, reference) :: Right(repo, p, reference)
  }

  ghost predicate NothingWrong(repo: Repo) {
    forall p, reference :: !Wrong(repo, p, reference)
  }

  lemma RightStep(repo: Repo, p: Path, q: Path)
    requires NothingWrong(repo) && Routed(repo, p) && Step(repo, p, q, false)
    ensures Step(repo, p, q, true)
  {
    hide Right, ReferenceConfigPath, Aggregate, Route;
    var reference :| Refers(repo, p, reference) && q == ReferenceConfigPath(p, reference);
    assert Reached(repo, p, true);
    assert !Wrong(repo, p, reference);
  }

  lemma {:induction false} RightRoutes(repo: Repo, route: seq<Path>)
    requires Route(repo, route, false) && NothingWrong(repo)
    ensures Route(repo, route, true)
    decreases route
  {
    hide Step, Aggregate, NothingWrong;
    var n := |route| - 1;
    if n > 0 {
      var before := route[..n];
      assert forall i | 0 <= i < n :: Step(repo, route[i], route[i + 1], false);
      assert forall i | 0 <= i < n - 1 :: Step(repo, before[i], before[i + 1], false);
      RightRoutes(repo, before);
      assert Routed(repo, route[n - 1]);
      RightStep(repo, route[n - 1], route[n]);
      forall i | 0 <= i < n ensures Step(repo, route[i], route[i + 1], true) {
        if i < n - 1 {
          assert Step(repo, before[i], before[i + 1], true);
        }
      }
    }
  }

  lemma WrongIsReported(repo: Repo, violations: seq<Violation>)
    requires Complete(repo, violations)
    ensures violations == [] <==> NothingWrong(repo)
  {
    hide Right, ReferenceConfigPath, Reached, HasFace, SplitRootOf;
    forall p, reference ensures Wrong(repo, p, reference) ==> violations != [] {
      if Wrong(repo, p, reference) {
        var v := DescribeIt(repo, p, reference);
        ListedOnce(repo, p, reference);
        assert v in multiset(violations);
      }
    }
    if violations != [] {
      var v := violations[0];
      assert v in multiset(violations);
      assert Wrong(repo, v.config, v.reference);
    }
  }

  lemma ListedOnce(repo: Repo, p: Path, reference: string)
    requires Refers(repo, p, reference)
    ensures References(repo, p)[reference] > 0
  {}

  lemma NothingWrongIsAllRight(repo: Repo)
    ensures NothingWrong(repo) <==> AllRight(repo)
  {
    hide Right, ReferenceConfigPath, Step, Aggregate;
    if NothingWrong(repo) {
      forall p, reference | Reached(repo, p, false) && Refers(repo, p, reference) ensures Right(repo, p, reference) {
        var route :| Route(repo, route, false) && route[|route| - 1] == p;
        RightRoutes(repo, route);
        assert !Wrong(repo, p, reference);
      }
    }
    if AllRight(repo) {
      forall p, reference ensures !Wrong(repo, p, reference) {
        if Reached(repo, p, true) {
          LooserRoute(repo, p);
        }
      }
    }
  }

  /** The walk reports nothing exactly when every reference reachable from an aggregate is right. */
  lemma NoViolationExactlyWhenAllRight(repo: Repo, violations: seq<Violation>)
    requires Complete(repo, violations)
    ensures violations == [] <==> AllRight(repo)
  {
    hide *;
    WrongIsReported(repo, violations);
    NothingWrongIsAllRight(repo);
  }

  lemma LooserRoute(repo: Repo, p: Path)
    requires Reached(repo, p, true)
    ensures Reached(repo, p, false)
  {
    hide Right, ReferenceConfigPath;
    var route :| Route(repo, route, true) && route[|route| - 1] == p;
    forall i | 0 <= i < |route| - 1 ensures Step(repo, route[i], route[i + 1], false) {
      assert Step(repo, route[i], route[i + 1], true);
    }
    assert Route(repo, route, false);
  }

  lemma DescribeIt(repo: Repo, p: Path, reference: string) returns (v: Violation)
    requires Refers(repo, p, reference) && !Right(repo, p, reference)
    ensures Describes(repo, v) && v.config == p && v.reference == reference
  {
    hide ReferenceConfigPath, SplitRootOf;
    var split := SplitRootOf(repo, ReferenceConfigPath(p, reference));
    if f :| HasFace(repo, p, f) {
      forall g ensures HasFace(repo, p, g) <==> g == f {
        if HasFace(repo, p, g) {
          OneFace(repo, p, f, g);
        }
      }
      v := Violation(p, reference, split.value, Some(f));
    } else {
      v := Violation(p, reference, split.value, None);
    }
  }

  lemma OneFace(repo: Repo, p: Path, f: Face, g: Face)
    requires HasFace(repo, p, f) && HasFace(repo, p, g)
    ensures f == g
  {
    hide FaceWithin;
    var m: nat :| FaceWithin(repo, p, m) == Some(f);
    var n: nat :| FaceWithin(repo, p, n) == Some(g);
    if m <= n {
      LittleIsEnough(repo, p, m, n);
    } else {
      LittleIsEnough(repo, p, n, m);
    }
  }
}
