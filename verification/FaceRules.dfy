/**
 The rules behind the walk over Project References, in the file names themselves: what is a split project, what a
 reference or an `extends` names, which face a config has, what is reached, and which references are right.
 */
module FaceRules {
  import opened Strings
  import opened Wrappers
  import opened ReferenceFaces

  // ---- Names of files ----------------------------------------------------------------------------------------------

  /** The last component ends in ".json". */
  ghost predicate NamesJson(p: Path) {
    p != [] && exists stem :: p[|p| - 1] == stem + ".json"
  }

  lemma JsonExactly(p: Path)
    ensures IsJson(p) <==> NamesJson(p)
  {
    if IsJson(p) {
      var name := p[|p| - 1];
      assert name == name[..|name| - 5] + ".json";
    }
    if NamesJson(p) {
      var stem :| p[|p| - 1] == stem + ".json";
      assert (stem + ".json")[|stem|..] == ".json";
    }
  }

  /** A reference names a JSON file, or else the tsconfig.json of a directory. */
  lemma ReferenceNames(source: Path, reference: string)
    ensures
      var target := Resolve(Dirname(source), reference);
      ReferenceConfigPath(source, reference) == if NamesJson(target) then target else target + ["tsconfig.json"]
  {
    JsonExactly(Resolve(Dirname(source), reference));
  }

  /** An `extends` that starts with a dot names a JSON file, its suffix added when it lacks it; no other is followed. */
  lemma ExtendsNames(p: Path, extends_: Option<string>)
    ensures extends_.None? || !("." <= extends_.value) ==> LocalExtendsConfig(p, extends_) == None
    ensures extends_.Some? && "." <= extends_.value ==>
      var target := Resolve(Dirname(p), extends_.value);
      && (NamesJson(target) ==> LocalExtendsConfig(p, extends_) == Some(target))
      && (!NamesJson(target) && target != [] ==>
            LocalExtendsConfig(p, extends_) == Some(target[..|target| - 1] + [target[|target| - 1] + ".json"]))
  {
    if extends_.Some? {
      JsonExactly(Resolve(Dirname(p), extends_.value));
    }
  }

  // ---- Split projects ----------------------------------------------------------------------------------------------

  /** A package directory that holds both leaf configs. */
  ghost predicate HoldsBothLeaves(repo: Repo, dir: Path) {
    dir in repo.packages && dir + ["tsconfig.host.json"] in repo.files && dir + ["tsconfig.client.json"] in repo.files
  }

  /** A path lies in a split project exactly when it is the longest prefix of the path that holds both leaves. */
  lemma SplitRootExactly(repo: Repo, target: Path, dir: Path)
    ensures SplitRootOf(repo, target) == Some(dir) <==>
            dir <= target && HoldsBothLeaves(repo, dir)
            && forall other | other <= target && HoldsBothLeaves(repo, other) :: |other| <= |dir|
  {
    forall other ensures HoldsBothLeaves(repo, other) == IsSplit(repo, other) {}
    hide IsSplit, HoldsBothLeaves;
    var found := SplitRootOf(repo, target);
    forall other | other <= target && HoldsBothLeaves(repo, other)
      ensures found.Some? && |other| <= |found.value|
    {
      assert other == target[..|other|];
    }
    assert dir <= target ==> dir == target[..|dir|];
  }

  // ---- Faces -------------------------------------------------------------------------------------------------------

  /** Where a face comes from: the name of a leaf, the two base configs of the root, or the config that is extended. */
  lemma FaceComesFrom(repo: Repo, p: Path, face: Face)
    requires p in repo.files && repo.files[p].Config?
    ensures
      if Basename(p) == "tsconfig.host.json" then HasFace(repo, p, face) <==> face == Host
      else if Basename(p) == "tsconfig.client.json" then HasFace(repo, p, face) <==> face == Client
      else if p == repo.root + ["tsconfig.base.json"] then HasFace(repo, p, face) <==> face == Host
      else if p == repo.root + ["tsconfig.base.client.json"] then HasFace(repo, p, face) <==> face == Client
      else
        var parent := LocalExtendsConfig(p, repo.files[p].extends_);
        HasFace(repo, p, face) <==> parent.Some? && parent.value in repo.files && HasFace(repo, parent.value, face)
  {
    hide LocalExtendsConfig, HasFace;
    if OwnFace(repo, p).Some? {
      OwnFaceIsFace(repo, p, face);
    } else if Parent(repo, p).Some? {
      FaceOfParent(repo, p, face);
    } else {
      NoFaceWithoutParent(repo, p, face);
    }
  }

  lemma OwnFaceIsFace(repo: Repo, p: Path, face: Face)
    requires OwnFace(repo, p).Some?
    ensures HasFace(repo, p, face) <==> OwnFace(repo, p) == Some(face)
  {
    assert OwnFace(repo, p) == Some(face) ==> FaceWithin(repo, p, 0) == Some(face);
  }

  lemma NoFaceWithoutParent(repo: Repo, p: Path, face: Face)
    requires OwnFace(repo, p).None? && Parent(repo, p).None?
    ensures !HasFace(repo, p, face)
  {}

  /**
   A reference is right when it enters no split project, or when it names the leaf of the split project for the face of
   its config.
   */
  lemma RightExactly(repo: Repo, source: Path, reference: string)
    ensures Right(repo, source, reference) <==>
            forall dir | SplitRootOf(repo, ReferenceConfigPath(source, reference)) == Some(dir) ::
              var target := ReferenceConfigPath(source, reference);
              || (HasFace(repo, source, Host) && target == dir + ["tsconfig.host.json"])
              || (HasFace(repo, source, Client) && target == dir + ["tsconfig.client.json"])
  {
    hide SplitRootOf, HasFace, ReferenceConfigPath;
  }

  // ---- What is reached ---------------------------------------------------------------------------------------------

  /** Both aggregates of the root are reached, and what a reached config refers to rightly. */
  lemma ReachedFromAggregates(repo: Repo, p: Path, reference: string)
    ensures repo.root + ["tsconfig.host.json"] in repo.files ==>
              Reached(repo, repo.root + ["tsconfig.host.json"], true)
    ensures repo.root + ["tsconfig.client.json"] in repo.files ==>
              Reached(repo, repo.root + ["tsconfig.client.json"], true)
    ensures Reached(repo, p, true) && repo.files[p].Config? && reference in repo.files[p].references
            && Right(repo, p, reference) && ReferenceConfigPath(p, reference) in repo.files ==>
              Reached(repo, ReferenceConfigPath(p, reference), true)
  {
    hide Right, ReferenceConfigPath;
    var host, client := repo.root + ["tsconfig.host.json"], repo.root + ["tsconfig.client.json"];
    assert Route(repo, [host], true) && [host][|[host]| - 1] == host;
    assert Route(repo, [client], true) && [client][|[client]| - 1] == client;
    if Reached(repo, p, true) && Refers(repo, p, reference) && Right(repo, p, reference) {
      assert Step(repo, p, ReferenceConfigPath(p, reference), true);
      RouteGoesOn(repo, p, ReferenceConfigPath(p, reference));
    }
  }

  /** And nothing else: any set of configs with these two properties holds every reached one. */
  lemma {:induction false} NothingElseIsReached(repo: Repo, some: set<Path>, p: Path)
    requires Reached(repo, p, true)
    requires forall name | name in {"tsconfig.host.json", "tsconfig.client.json"} :: repo.root + [name] in some
    requires forall q, reference | q in some && Refers(repo, q, reference) && Right(repo, q, reference) ::
               ReferenceConfigPath(q, reference) in some
    ensures p in some
  {
    var route :| Route(repo, route, true) && route[|route| - 1] == p;
    RouteStaysInside(repo, some, route);
  }

  lemma {:induction false} RouteStaysInside(repo: Repo, some: set<Path>, route: seq<Path>)
    requires Route(repo, route, true)
    requires forall name | name in {"tsconfig.host.json", "tsconfig.client.json"} :: repo.root + [name] in some
    requires forall q, reference | q in some && Refers(repo, q, reference) && Right(repo, q, reference) ::
               ReferenceConfigPath(q, reference) in some
    ensures route[|route| - 1] in some
    decreases route
  {
    hide Right, ReferenceConfigPath, Refers;
    var n := |route| - 1;
    if n > 0 {
      assert Step(repo, route[n - 1], route[n], true);
      assert forall i | 0 <= i < n - 1 :: Step(repo, route[i], route[i + 1], true);
      RouteStaysInside(repo, some, route[..n]);
    } else {
      assert "tsconfig.host.json" in {"tsconfig.host.json", "tsconfig.client.json"};
      assert "tsconfig.client.json" in {"tsconfig.host.json", "tsconfig.client.json"};
    }
  }
}
