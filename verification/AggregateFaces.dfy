/**
 The comment of the reference walk against its code: when references into split projects match the aggregate that leads
 to them, and a repository that the walk accepts although they do not.
 */
module AggregateFaces {
  import opened Strings
  import opened Wrappers
  import opened ReferenceFaces

  // ---- The face of the aggregate -----------------------------------------------------------------------------------

  /** A path of references, right or wrong, from the aggregate of a face. */
  ghost predicate ReachedFrom(repo: Repo, face: Face, p: Path) {
    && p in repo.files
    && exists route :: Route(repo, route, false) && route[0] == repo.root + [LeafName(face)] && route[|route| - 1] == p
  }

  /** A reference that enters a split project. */
  ghost predicate Enters(repo: Repo, p: Path, reference: string) {
    Refers(repo, p, reference) && SplitRootOf(repo, ReferenceConfigPath(p, reference)).Some?
  }

  /** As the comment of the walk has it: every reference that enters a split project names the leaf of the aggregate. */
  ghost predicate AggregateLeaves(repo: Repo) {
    forall face, p, reference | ReachedFrom(repo, face, p) && Enters(repo, p, reference) ::
      var target := ReferenceConfigPath(p, reference);
      target == SplitRootOf(repo, target).value + [LeafName(face)]
  }

  /** Every config that enters a split project has the face of each aggregate that leads to it. */
  ghost predicate FacesAgree(repo: Repo) {
    forall face, p, reference | ReachedFrom(repo, face, p) && Enters(repo, p, reference) :: HasFace(repo, p, face)
  }

  lemma LeafOfFace(repo: Repo, face: Face, p: Path, reference: string)
    requires Right(repo, p, reference) && Enters(repo, p, reference)
    ensures
      var target := ReferenceConfigPath(p, reference);
      target == SplitRootOf(repo, target).value + [LeafName(face)] <==> HasFace(repo, p, face)
  {
    hide ReferenceConfigPath, SplitRootOf, HasFace, Refers;
    var split := SplitRootOf(repo, ReferenceConfigPath(p, reference)).value;
    var own: Face :| HasFace(repo, p, own) && ReferenceConfigPath(p, reference) == split + [LeafName(own)];
    assert (split + [LeafName(own)])[|split|] == LeafName(own) && (split + [LeafName(face)])[|split|] == LeafName(face);
    LeavesDiffer();
    if HasFace(repo, p, face) {
      OneFace(repo, p, own, face);
    }
  }

  lemma LeavesDiffer()
    ensures LeafName(Host) != LeafName(Client)
  {
    assert LeafName(Host)[9] != LeafName(Client)[9];
  }

  lemma ReachedFromIsReached(repo: Repo, face: Face, p: Path)
    requires ReachedFrom(repo, face, p)
    ensures Reached(repo, p, false)
  {
    hide Step, Aggregate;
  }

  /**
   A repository the walk accepts satisfies what its comment says, that references into split projects match the
   aggregate, exactly when every config with such a reference has the face of each aggregate that leads to it.
   */
  lemma AggregateLeavesExactlyWhenFacesAgree(repo: Repo)
    requires AllRight(repo)
    ensures AggregateLeaves(repo) <==> FacesAgree(repo)
  {
    hide Right, ReferenceConfigPath, SplitRootOf, HasFace, Reached, ReachedFrom, LeafName, Refers;
    forall face, p, reference | ReachedFrom(repo, face, p) && Enters(repo, p, reference)
      ensures
        var target := ReferenceConfigPath(p, reference);
        target == SplitRootOf(repo, target).value + [LeafName(face)] <==> HasFace(repo, p, face)
    {
      ReachedFromIsReached(repo, face, p);
      LeafOfFace(repo, face, p, reference);
    }
  }

  // ---- A repository the walk accepts although the faces do not agree -----------------------------------------------

  const HOST_AGGREGATE: Path := ["tsconfig.host.json"]

  /** A config without a leaf name, which extends the base of the client face. */
  const PLAIN: Path := ["p", "tsconfig.json"]

  const CLIENT_BASE := "../tsconfig.base.client.json"

  const TO_CLIENT_LEAF := "/apps/s/tsconfig.client.json"

  /** The Host aggregate references the plain config, and that the Client leaf of the split project `apps/s`. */
  const CROSSED := Repo([], map[
    HOST_AGGREGATE := Config(None, ["p"]),
    PLAIN := Config(Some(CLIENT_BASE), [TO_CLIENT_LEAF]),
    ["tsconfig.base.client.json"] := Config(None, []),
    ["apps", "s", "tsconfig.host.json"] := Config(None, []),
    ["apps", "s", "tsconfig.client.json"] := Config(None, [])], {["apps", "s"]})

  lemma SplitParts(parts: seq<string>, s: string)
    requires parts != [] && JoinWith(parts, "/") == s && forall k | 0 <= k < |parts| :: Without(parts[k], '/')
    ensures SplitAt(s, '/') == parts
  {
    SplitOfJoinWith(parts, '/');
  }

  lemma WalkedStep(base: Path, part: string, rest: seq<string>)
    requires part != "" && part != "." && part != ".."
    ensures Walked(base, [part] + rest) == Walked(base + [part], rest)
  {
    assert ([part] + rest)[1..] == rest;
  }

  lemma WalkedStay(base: Path, rest: seq<string>)
    ensures Walked(base, [""] + rest) == Walked(base, rest)
  {
    assert ([""] + rest)[1..] == rest;
  }

  lemma WalkedUp(base: Path, rest: seq<string>)
    ensures Walked(base, [".."] + rest) == Walked(Dirname(base), rest)
  {
    assert ([".."] + rest)[1..] == rest;
  }

  lemma WalkedNowhere(base: Path)
    ensures Walked(base, []) == base
  {}

  lemma EndsInJson(p: Path, stem: string)
    requires p != [] && p[|p| - 1] == stem + JSON_SUFFIX
    ensures IsJson(p)
  {}

  lemma HostToPlain()
    ensures ReferenceConfigPath(HOST_AGGREGATE, "p") == PLAIN
  {
    SplitParts(["p"], "p");
    WalkedStep([], "p", []);
    WalkedNowhere(["p"]);
    assert ["p"] + [] == ["p"] && [] + ["p"] == ["p"];
    assert Resolve([], "p") == ["p"];
    assert Dirname(HOST_AGGREGATE) == [] && !IsJson(["p"]);
  }

  lemma LeafParts()
    ensures SplitAt(TO_CLIENT_LEAF, '/') == ["", "apps", "s", LeafName(Client)]
  {
    var leaf := LeafName(Client);
    assert Without(leaf, '/') && Without("s", '/') && Without("apps", '/') && Without("", '/');
    assert TO_CLIENT_LEAF == "" + "/" + ("apps" + "/" + ("s" + "/" + leaf));
    JoinWithCons("s", [leaf], "/");
    JoinWithCons("apps", ["s", leaf], "/");
    JoinWithCons("", ["apps", "s", leaf], "/");
    assert ["s"] + [leaf] == ["s", leaf] && ["apps"] + ["s", leaf] == ["apps", "s", leaf];
    assert [""] + ["apps", "s", leaf] == ["", "apps", "s", leaf];
    SplitParts(["", "apps", "s", leaf], TO_CLIENT_LEAF);
  }

  lemma LeafWalk(leaf: string)
    requires leaf != "" && leaf != "." && leaf != ".."
    ensures Walked([], ["", "apps", "s", leaf]) == ["apps", "s", leaf]
  {
    assert [""] + ["apps", "s", leaf] == ["", "apps", "s", leaf] && ["apps"] + ["s", leaf] == ["apps", "s", leaf];
    assert ["s"] + [leaf] == ["s", leaf] && [leaf] + [] == [leaf];
    WalkedStay([], ["apps", "s", leaf]);
    WalkedStep([], "apps", ["s", leaf]);
    assert [] + ["apps"] == ["apps"];
    WalkedStep(["apps"], "s", [leaf]);
    assert ["apps"] + ["s"] == ["apps", "s"];
    WalkedStep(["apps", "s"], leaf, []);
    WalkedNowhere(["apps", "s", leaf]);
    assert ["apps", "s"] + [leaf] == ["apps", "s", leaf];
  }

  lemma PlainToLeaf()
    ensures ReferenceConfigPath(PLAIN, TO_CLIENT_LEAF) == ["apps", "s", LeafName(Client)]
  {
    var leaf := LeafName(Client);
    assert leaf == "tsconfig.client" + JSON_SUFFIX && |leaf| == 20;
    LeafParts();
    LeafWalk(leaf);
    EndsInJson(["apps", "s", leaf], "tsconfig.client");
    hide SplitAt, Walked, LeafName, IsJson;
    assert TO_CLIENT_LEAF[0] == '/';
    assert Resolve(Dirname(PLAIN), TO_CLIENT_LEAF) == ["apps", "s", leaf];
  }

  const BASE_NAME := "tsconfig.base.client.json"

  lemma BaseParts()
    ensures SplitAt(CLIENT_BASE, '/') == ["..", BASE_NAME]
  {
    assert Without(BASE_NAME, '/') && Without("..", '/');
    assert CLIENT_BASE == ".." + "/" + BASE_NAME;
    JoinWithCons("..", [BASE_NAME], "/");
    assert [".."] + [BASE_NAME] == ["..", BASE_NAME];
    SplitParts(["..", BASE_NAME], CLIENT_BASE);
  }

  lemma BaseWalk(name: string)
    requires name != "" && name != "." && name != ".."
    ensures Walked(["p"], ["..", name]) == [name]
  {
    assert [".."] + [name] == ["..", name];
    WalkedUp(["p"], [name]);
    assert Dirname(["p"]) == [];
    WalkedStep([], name, []);
    WalkedNowhere([name]);
    assert [name] + [] == [name] && [] + [name] == [name];
  }

  lemma PlainExtendsBase()
    ensures LocalExtendsConfig(PLAIN, Some(CLIENT_BASE)) == Some([BASE_NAME])
  {
    assert BASE_NAME == "tsconfig.base.client" + JSON_SUFFIX && |BASE_NAME| == 25;
    BaseParts();
    BaseWalk(BASE_NAME);
    EndsInJson([BASE_NAME], "tsconfig.base.client");
    hide SplitAt, Walked, IsJson;
    assert CLIENT_BASE[0] == '.' && Dirname(PLAIN) == ["p"];
    assert Resolve(["p"], CLIENT_BASE) == [BASE_NAME];
  }

  lemma PlainIsClient()
    ensures HasFace(CROSSED, PLAIN, Client)
  {
    PlainExtendsBase();
    hide LocalExtendsConfig;
    assert OwnFace(CROSSED, PLAIN).None? by {
      assert |Basename(PLAIN)| == 13;
    }
    assert Parent(CROSSED, PLAIN) == Some([BASE_NAME]);
    assert OwnFace(CROSSED, [BASE_NAME]) == Some(Client) by {
      assert |BASE_NAME| == 25;
      assert [] + ["tsconfig.base.json"] == ["tsconfig.base.json"] && |"tsconfig.base.json"| == 18;
      assert [] + [BASE_NAME] == [BASE_NAME];
    }
    assert FaceWithin(CROSSED, PLAIN, 1) == Some(Client);
  }

  lemma SplitOfCrossed()
    ensures SplitRootOf(CROSSED, PLAIN).None?
    ensures SplitRootOf(CROSSED, ["apps", "s", LeafName(Client)]) == Some(["apps", "s"])
  {
    var split, leaf := ["apps", "s"], ["apps", "s", LeafName(Client)];
    assert forall p | p != split :: !IsSplit(CROSSED, p);
    assert PLAIN[..1] == ["p"] && PLAIN[..0] == [] && leaf[..2] == split && leaf[..3] == leaf;
    assert split + [LeafName(Host)] == ["apps", "s", "tsconfig.host.json"] && split + [LeafName(Client)] == leaf;
    assert IsSplit(CROSSED, leaf[..2]);
    assert PLAIN[..2] == PLAIN && PLAIN[0] == "p" && split[0] == "apps";
  }

  lemma CrossedIsRight()
    ensures AllRight(CROSSED)
  {
    HostToPlain();
    PlainToLeaf();
    PlainIsClient();
    SplitOfCrossed();
    hide ReferenceConfigPath, SplitRootOf, HasFace, Reached;
    forall p, reference | Refers(CROSSED, p, reference) ensures Right(CROSSED, p, reference) {
      assert (p == HOST_AGGREGATE && reference == "p") || (p == PLAIN && reference == TO_CLIENT_LEAF);
      assert ["apps", "s"] + [LeafName(Client)] == ["apps", "s", LeafName(Client)];
    }
  }

  lemma HostLeadsToPlain()
    ensures ReachedFrom(CROSSED, Host, PLAIN)
  {
    HostToPlain();
    hide ReferenceConfigPath;
    assert Refers(CROSSED, HOST_AGGREGATE, "p");
    assert Step(CROSSED, HOST_AGGREGATE, PLAIN, false);
    var route := [HOST_AGGREGATE, PLAIN];
    assert [] + [LeafName(Host)] == HOST_AGGREGATE;
    assert Route(CROSSED, route, false) && route[0] == CROSSED.root + [LeafName(Host)] && route[|route| - 1] == PLAIN;
  }

  lemma PlainEnters()
    ensures Enters(CROSSED, PLAIN, TO_CLIENT_LEAF)
  {
    PlainToLeaf();
    SplitOfCrossed();
    hide ReferenceConfigPath, SplitRootOf;
  }

  lemma PlainIsNotHost()
    ensures !HasFace(CROSSED, PLAIN, Host)
  {
    PlainIsClient();
    hide HasFace;
    if HasFace(CROSSED, PLAIN, Host) {
      OneFace(CROSSED, PLAIN, Client, Host);
    }
  }

  /**
   The walk reports nothing on this repository, yet its Host aggregate leads to a reference into the split project that
   names the Client leaf.
   */
  lemma CrossedIsAcceptedAgainstTheComment(violations: seq<Violation>)
    requires Complete(CROSSED, violations)
    ensures violations == [] && !AggregateLeaves(CROSSED)
  {
    hide *;
    CrossedIsRight();
    NoViolationExactlyWhenAllRight(CROSSED, violations);
    FacesDoNotAgree();
    AggregateLeavesExactlyWhenFacesAgree(CROSSED);
  }

  lemma FacesDoNotAgree()
    ensures !FacesAgree(CROSSED)
  {
    HostLeadsToPlain();
    PlainEnters();
    PlainIsNotHost();
    hide ReachedFrom, Enters, HasFace, CROSSED;
  }
}
