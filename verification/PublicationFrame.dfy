/**
 What a publication run leaves in the registry, read off the registry itself: what it adds, what it moves and what it
 never touches.
 */
module PublicationFrame {
  import opened Wrappers
  import opened Publication
  import opened PublicationSafety

  /** The release is one the bundle publishes. */
  ghost predicate ReleasedBy(b: Bundle, x: Release, integrity: string) {
    exists i :: 0 <= i < |b.packages| && x == Release(b.packages[i].name, b.version)
      && integrity == b.packages[i].integrity
  }

  /** The tag is the bundle's own tag on one of its packages, or `latest` of the entry package. */
  ghost predicate TaggedBy(b: Bundle, t: Tag) {
    || t == Tag("@deepseek-ai/dsh", "latest")
    || exists i :: 0 <= i < |b.packages| && t == Tag(b.packages[i].name, b.distTag)
  }

  /** A write the bundle may make. */
  ghost predicate Permitted(b: Bundle, w: Write) {
    match w
    case PutRelease(x, integrity) => ReleasedBy(b, x, integrity)
    case PutTag(t, version) => TaggedBy(b, t) && version == b.version
  }

  lemma PackageIsPermitted(b: Bundle, k: nat, r: Registry)
    requires k < |b.packages|
    ensures forall w | w in PackageWrites(b, b.packages[k], r) :: Permitted(b, w)
  {
    var p := b.packages[k];
    assert ReleasedBy(b, Release(p.name, b.version), p.integrity);
    assert TaggedBy(b, Tag(p.name, b.distTag));
  }

  lemma {:induction false} ScriptIsPermitted(b: Bundle, k: nat, r: Registry)
    requires k <= |b.packages|
    ensures forall i | 0 <= i < |ScriptFrom(b, k, r).writes| :: Permitted(b, ScriptFrom(b, k, r).writes[i])
    decreases |b.packages| - k
  {
    if k < |b.packages| && !Conflicts(b, b.packages[k], r) {
      hide PackageWrites, Conflicts, After, Permitted;
      PackageIsPermitted(b, k, r);
      ScriptIsPermitted(b, k + 1, After(r, PackageWrites(b, b.packages[k], r)));
    }
  }

  /** The two registries differ in what the bundle may write only. */
  ghost predicate OnlyTouches(b: Bundle, r: Registry, r': Registry) {
    && (forall x | x in r.releases || x in r'.releases ::
          || (x in r.releases && x in r'.releases && r'.releases[x] == r.releases[x])
          || (x in r'.releases && ReleasedBy(b, x, r'.releases[x])))
    && (forall t | t in r.tags || t in r'.tags ::
          || (t in r.tags && t in r'.tags && r'.tags[t] == r.tags[t])
          || (t in r'.tags && TaggedBy(b, t) && r'.tags[t] == b.version))
  }

  lemma {:induction false} PermittedWritesOnlyTouch(b: Bundle, ws: seq<Write>, r: Registry)
    requires forall i | 0 <= i < |ws| :: Permitted(b, ws[i])
    ensures OnlyTouches(b, r, After(r, ws))
    decreases ws
  {
    if ws != [] {
      assert Permitted(b, ws[0]);
      PermittedWritesOnlyTouch(b, ws[1..], Apply(r, ws[0]));
    }
  }

  /**
   Wherever a run is cut off: a release it added is one of the bundle, under the bundle's integrity; a tag it moved is
   the bundle's tag on one of its packages or `latest` of the entry package, and points at the bundle's version; every
   other release and tag is as it was.
   */
  lemma RunOnlyTouchesItsOwn(b: Bundle, r: Registry, cut: nat)
    requires cut <= |RunOf(b, r).writes|
    ensures OnlyTouches(b, r, CutOff(b, r, cut))
  {
    hide ScriptFrom, Permitted, OnlyTouches, After;
    ScriptIsPermitted(b, 0, r);
    PermittedWritesOnlyTouch(b, RunOf(b, r).writes[..cut], r);
  }

  /** A completed run leaves each package published with its integrity and tagged, and `latest` of the entry package. */
  lemma CompletedRunLeaves(b: Bundle, r: Registry)
    requires Loaded(b) && RunOf(b, r).end == Completed
    ensures
      var done := After(r, RunOf(b, r).writes);
      && (forall i | 0 <= i < |b.packages| ::
            var x, t := Release(b.packages[i].name, b.version), Tag(b.packages[i].name, b.distTag);
            && x in done.releases && done.releases[x] == b.packages[i].integrity
            && t in done.tags && done.tags[t] == b.version)
      && Tag("@deepseek-ai/dsh", "latest") in done.tags && done.tags[Tag("@deepseek-ai/dsh", "latest")] == b.version
  {
    hide ScriptFrom, After;
    VerifiedMeansNothingToDo(b, r);
    var done := After(r, RunOf(b, r).writes);
    forall i | 0 <= i < |b.packages| ensures InPlace(b, b.packages[i], done) {}
  }

  /** A run stops at the first package published with other bytes, the packages before it being in place. */
  lemma {:induction false} ConflictIsTheFirst(b: Bundle, k: nat, r: Registry) returns (i: nat)
    requires Loaded(b) && k <= |b.packages| && AllInPlace(b, k, r) && ScriptFrom(b, k, r).end.Conflict?
    ensures
      var s := ScriptFrom(b, k, r);
      var done := After(r, s.writes);
      && k <= i < |b.packages| && s.end.name == b.packages[i].name && AllInPlace(b, i, done)
      && Release(b.packages[i].name, b.version) in done.releases
      && done.releases[Release(b.packages[i].name, b.version)] != b.packages[i].integrity
    decreases |b.packages| - k
  {
    if Conflicts(b, b.packages[k], r) {
      i := k;
      AfterFew(r, []);
    } else {
      hide PackageWrites, After, InPlace, Loaded, Conflicts;
      var p := b.packages[k];
      var ws := PackageWrites(b, p, r);
      assert ws[..|ws|] == ws;
      PackageLands(b, p, r);
      EarlierStayInPlace(b, k, r);
      AfterJoins(r, ws, ScriptFrom(b, k + 1, After(r, ws)).writes);
      i := ConflictIsTheFirst(b, k + 1, After(r, ws));
    }
  }
}
