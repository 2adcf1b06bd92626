/**
 Safety of publication over whole histories of crashed and completed runs, and when a run completes.
 */
module PublicationSafety {
  import opened Wrappers
  import opened Publication

  /** Everything published stays published, byte for byte. */
  ghost predicate Extends(r: Registry, r': Registry) {
    forall x {:trigger x in r.releases} | x in r.releases ::
      x in r'.releases && r'.releases[x] == r.releases[x]
  }

  /** Where the users' default install of the release entry package points. */
  function Latest(r: Registry): Option<string> {
    var t := Tag(RELEASE_ENTRY_PACKAGE, LATEST_DIST_TAG);
    if t in r.tags then Some(r.tags[t]) else None
  }

  lemma PackageExtends(b: Bundle, p: Package, r: Registry, cut: nat)
    requires cut <= |PackageWrites(b, p, r)|
    ensures Extends(r, After(r, PackageWrites(b, p, r)[..cut]))
  {
    AfterFew(r, PackageWrites(b, p, r)[..cut]);
  }

  lemma {:induction false} ScriptExtends(b: Bundle, k: nat, r: Registry, cut: nat)
    requires k <= |b.packages| && cut <= |ScriptFrom(b, k, r).writes|
    ensures Extends(r, After(r, ScriptFrom(b, k, r).writes[..cut]))
    ensures WellFormed(r) ==> WellFormed(After(r, ScriptFrom(b, k, r).writes[..cut]))
    decreases |b.packages| - k
  {
    if k == |b.packages| || Conflicts(b, b.packages[k], r) {
      AfterFew(r, ScriptFrom(b, k, r).writes[..cut]);
    } else {
      hide PackageWrites, Conflicts, After, WellFormed;
      var p := b.packages[k];
      var ws := PackageWrites(b, p, r);
      var rest := ScriptFrom(b, k + 1, After(r, ws)).writes;
      CutsOfJoin(ws, rest, cut);
      var c := if cut <= |ws| then cut else |ws|;
      PackageExtends(b, p, r, c);
      if WellFormed(r) {
        PackageKeepsWellFormed(b, p, r, c);
      }
      if cut > |ws| {
        assert ws[..|ws|] == ws;
        AfterJoins(r, ws, rest[..cut - |ws|]);
        ScriptExtends(b, k + 1, After(r, ws), cut - |ws|);
      }
    }
  }

  // ---- `latest` moves last -----------------------------------------------------------------------------------------

  /** Some package other than the last is the entry package, and the bundle's own dist-tag is `latest`. */
  ghost predicate EarlyLatest(b: Bundle) {
    b.distTag == LATEST_DIST_TAG && exists j | 0 <= j < |b.packages| - 1 :: b.packages[j].name == RELEASE_ENTRY_PACKAGE
  }

  /** Wherever a run is cut off, `latest` has not moved or the whole bundle is in place. */
  ghost predicate LatestMovesLast(b: Bundle) {
    forall r, cut: nat {:trigger CutOff(b, r, cut)} | WellFormed(r) && cut <= |RunOf(b, r).writes| ::
      Latest(CutOff(b, r, cut)) == Latest(r) || AllInPlace(b, |b.packages|, CutOff(b, r, cut))
  }

  lemma PackageMovesLatest(b: Bundle, k: nat, r: Registry, cut: nat)
    requires Loaded(b) && !EarlyLatest(b) && k < |b.packages| && AllInPlace(b, k, r)
    requires !Conflicts(b, b.packages[k], r) && cut <= |PackageWrites(b, b.packages[k], r)|
    ensures
      var r' := After(r, PackageWrites(b, b.packages[k], r)[..cut]);
      && AllInPlace(b, k, r')
      && (Latest(r') == Latest(r) || (k + 1 == |b.packages| && AllInPlace(b, k + 1, r')))
  {
    var p := b.packages[k];
    var ws := PackageWrites(b, p, r);
    forall i | 0 <= i < k ensures InPlace(b, b.packages[i], After(r, ws[..cut])) {
      OtherPackageKeepsInPlace(b, b.packages[i], p, r, cut);
    }
    AfterFew(r, ws[..cut]);
    if cut == |ws| {
      assert ws[..cut] == ws;
      PackageLands(b, p, r);
    }
  }

  lemma EntryMovesLatest(b: Bundle, r: Registry, cut: nat)
    requires cut <= |EntryScript(b, r).writes| && AllInPlace(b, |b.packages|, r)
    ensures AllInPlace(b, |b.packages|, After(r, EntryScript(b, r).writes[..cut]))
  {
    AfterFew(r, EntryScript(b, r).writes[..cut]);
  }

  lemma {:induction false} ScriptMovesLatest(b: Bundle, k: nat, r: Registry, cut: nat)
    requires Loaded(b) && !EarlyLatest(b) && k <= |b.packages| && AllInPlace(b, k, r)
    requires cut <= |ScriptFrom(b, k, r).writes|
    ensures
      var r' := After(r, ScriptFrom(b, k, r).writes[..cut]);
      Latest(r') == Latest(r) || AllInPlace(b, |b.packages|, r')
    decreases |b.packages| - k
  {
    if k == |b.packages| {
      EntryMovesLatest(b, r, cut);
    } else if Conflicts(b, b.packages[k], r) {
      AfterFew(r, []);
    } else {
      hide PackageWrites, Conflicts, After, EarlyLatest, InPlace, Latest, Loaded;
      var p := b.packages[k];
      var ws := PackageWrites(b, p, r);
      var rest := ScriptFrom(b, k + 1, After(r, ws)).writes;
      CutsOfJoin(ws, rest, cut);
      if cut <= |ws| {
        PackageMovesLatest(b, k, r, cut);
      } else {
        var c := cut - |ws|;
        assert ws[..|ws|] == ws;
        PackageMovesLatest(b, k, r, |ws|);
        PackageLands(b, p, r);
        AfterJoins(r, ws, rest[..c]);
        ScriptMovesLatest(b, k + 1, After(r, ws), c);
        if k + 1 == |b.packages| {
          EntryMovesLatest(b, After(r, ws), c);
        }
      }
    }
  }

  /**
   On a registry without the packages from k on, the run reaches a point with `latest` moved and a package missing.
   */
  lemma {:induction false} EarlyMove(b: Bundle, k: nat, j: nat, r: Registry) returns (cut: nat)
    requires Loaded(b) && b.distTag == LATEST_DIST_TAG
    requires k <= j < |b.packages| - 1 && b.packages[j].name == RELEASE_ENTRY_PACKAGE
    requires forall i | k <= i < |b.packages| :: Release(b.packages[i].name, b.version) !in r.releases
    ensures cut <= |ScriptFrom(b, k, r).writes|
    ensures
      var r' := After(r, ScriptFrom(b, k, r).writes[..cut]);
      && Latest(r') == Some(b.version)
      && Release(b.packages[|b.packages| - 1].name, b.version) !in r'.releases
    decreases j - k
  {
    var ws := PackageWrites(b, b.packages[k], r);
    var r' := After(r, ws);
    AfterFew(r, ws);
    var rest := ScriptFrom(b, k + 1, r').writes;
    assert forall i | k < i < |b.packages| :: b.packages[i].name != b.packages[k].name;
    if k == j {
      cut := |ws|;
      CutsOfJoin(ws, rest, cut);
      assert ws[..cut] == ws;
    } else {
      var c := EarlyMove(b, k + 1, j, r');
      cut := |ws| + c;
      CutsOfJoin(ws, rest, cut);
      AfterJoins(r, ws, rest[..c]);
    }
  }

  /**
   `latest` of the entry package is moved only once every package of the bundle is published with the bundle's
   integrity and tagged, at every crash point of every run, exactly for the bundles that are not themselves tagged
   `latest` with the entry package before another package.
   */
  lemma LatestMovesLastUnlessTaggedEarly(b: Bundle)
    requires Loaded(b)
    ensures LatestMovesLast(b) <==> !EarlyLatest(b)
  {
    if EarlyLatest(b) {
      var j :| 0 <= j < |b.packages| - 1 && b.packages[j].name == RELEASE_ENTRY_PACKAGE;
      var r := Registry(map[], map[]);
      var cut := EarlyMove(b, 0, j, r);
      assert Latest(CutOff(b, r, cut)) != Latest(r);
      assert !InPlace(b, b.packages[|b.packages| - 1], CutOff(b, r, cut));
    } else {
      forall r, cut: nat {:trigger CutOff(b, r, cut)} | WellFormed(r) && cut <= |RunOf(b, r).writes|
        ensures Latest(CutOff(b, r, cut)) == Latest(r) || AllInPlace(b, |b.packages|, CutOff(b, r, cut))
      {
        ScriptMovesLatest(b, 0, r, cut);
      }
    }
  }

  // ---- When a run completes, and what that means -------------------------------------------------------------------

  ghost predicate Ships(b: Bundle, k: nat, name: string)
    requires k <= |b.packages|
  {
    exists i | 0 <= i < k :: b.packages[i].name == name
  }

  /** How a run from r ends, read off r alone. */
  ghost function Verdict(b: Bundle, k: nat, r: Registry): End
    requires k <= |b.packages|
    decreases |b.packages| - k
  {
    if k < |b.packages| then
      if Conflicts(b, b.packages[k], r) then Conflict(b.packages[k].name) else Verdict(b, k + 1, r)
    else if Ships(b, k, RELEASE_ENTRY_PACKAGE) || Release(RELEASE_ENTRY_PACKAGE, b.version) in r.releases then Completed
    else NoRelease(RELEASE_ENTRY_PACKAGE)
  }

  /**
   Before package k is handled, the releases of this version are the ones at the start and the ones of the packages
   before.
   */
  ghost predicate Reached(b: Bundle, k: nat, start: Registry, r: Registry)
    requires k <= |b.packages|
  {
    && (forall i | k <= i < |b.packages| :: Conflicts(b, b.packages[i], r) == Conflicts(b, b.packages[i], start))
    && (Release(RELEASE_ENTRY_PACKAGE, b.version) in r.releases
        <==> Ships(b, k, RELEASE_ENTRY_PACKAGE) || Release(RELEASE_ENTRY_PACKAGE, b.version) in start.releases)
  }

  lemma ReachedNext(b: Bundle, k: nat, start: Registry, r: Registry)
    requires Loaded(b) && k < |b.packages| && Reached(b, k, start, r) && !Conflicts(b, b.packages[k], r)
    ensures Reached(b, k + 1, start, After(r, PackageWrites(b, b.packages[k], r)))
  {
    var p := b.packages[k];
    var ws := PackageWrites(b, p, r);
    AfterFew(r, ws);
    assert forall i | k < i < |b.packages| :: b.packages[i].name != p.name;
    assert Ships(b, k + 1, RELEASE_ENTRY_PACKAGE)
        <==> Ships(b, k, RELEASE_ENTRY_PACKAGE) || p.name == RELEASE_ENTRY_PACKAGE by {
      if p.name == RELEASE_ENTRY_PACKAGE {
        assert b.packages[k].name == RELEASE_ENTRY_PACKAGE;
      }
    }
  }

  lemma {:induction false} EndIsTheVerdict(b: Bundle, k: nat, start: Registry, r: Registry)
    requires Loaded(b) && WellFormed(r) && k <= |b.packages| && Reached(b, k, start, r)
    ensures ScriptFrom(b, k, r).end == Verdict(b, k, start)
    decreases |b.packages| - k
  {
    if k == |b.packages| {
    } else if Conflicts(b, b.packages[k], r) {
    } else {
      hide After, PackageWrites, Loaded, WellFormed;
      var p := b.packages[k];
      var ws := PackageWrites(b, p, r);
      assert ws[..|ws|] == ws;
      PackageKeepsWellFormed(b, p, r, |ws|);
      ReachedNext(b, k, start, r);
      EndIsTheVerdict(b, k + 1, start, After(r, ws));
    }
  }

  lemma {:induction false} VerdictCompletes(b: Bundle, k: nat, r: Registry)
    requires k <= |b.packages|
    ensures Verdict(b, k, r) == Completed <==>
            && (forall i | k <= i < |b.packages| :: !Conflicts(b, b.packages[i], r))
            && (Ships(b, |b.packages|, RELEASE_ENTRY_PACKAGE)
                || Release(RELEASE_ENTRY_PACKAGE, b.version) in r.releases)
    decreases |b.packages| - k
  {
    if k < |b.packages| {
      VerdictCompletes(b, k + 1, r);
    }
  }

  /**
   A run from r, when nothing interrupts it, completes exactly when no package of the bundle is already published with
   other bytes and the entry package is in the bundle or already published at this version.
   */
  lemma CompletesExactlyWhen(b: Bundle, r: Registry)
    requires Loaded(b) && WellFormed(r)
    ensures RunOf(b, r).end == Completed <==>
            && (forall i | 0 <= i < |b.packages| :: !Conflicts(b, b.packages[i], r))
            && (Ships(b, |b.packages|, RELEASE_ENTRY_PACKAGE)
                || Release(RELEASE_ENTRY_PACKAGE, b.version) in r.releases)
  {
    EndIsTheVerdict(b, 0, r, r);
    VerdictCompletes(b, 0, r);
  }

  /** What `verifyRemote` and `verifyReleaseEntryDistTag` look for. */
  ghost predicate Verified(b: Bundle, r: Registry) {
    AllInPlace(b, |b.packages|, r) && HasTag(r, RELEASE_ENTRY_PACKAGE, LATEST_DIST_TAG, b.version)
  }

  lemma {:induction false} CompletedFrom(b: Bundle, k: nat, r: Registry)
    requires Loaded(b) && k <= |b.packages| && AllInPlace(b, k, r) && ScriptFrom(b, k, r).end == Completed
    ensures Verified(b, After(r, ScriptFrom(b, k, r).writes))
    decreases |b.packages| - k
  {
    if k == |b.packages| {
      AfterFew(r, EntryScript(b, r).writes);
    } else {
      hide PackageWrites, After, InPlace, Loaded, HasTag, Conflicts;
      var p := b.packages[k];
      var ws := PackageWrites(b, p, r);
      assert ws[..|ws|] == ws;
      PackageLands(b, p, r);
      EarlierStayInPlace(b, k, r);
      AfterJoins(r, ws, ScriptFrom(b, k + 1, After(r, ws)).writes);
      CompletedFrom(b, k + 1, After(r, ws));
    }
  }

  lemma EarlierStayInPlace(b: Bundle, k: nat, r: Registry)
    requires Loaded(b) && k < |b.packages| && AllInPlace(b, k, r)
    ensures AllInPlace(b, k, After(r, PackageWrites(b, b.packages[k], r)))
  {
    var ws := PackageWrites(b, b.packages[k], r);
    assert ws[..|ws|] == ws;
    forall i | 0 <= i < k ensures InPlace(b, b.packages[i], After(r, ws)) {
      OtherPackageKeepsInPlace(b, b.packages[i], b.packages[k], r, |ws|);
    }
  }

  lemma {:induction false} NothingLeft(b: Bundle, k: nat, r: Registry)
    requires Verified(b, r) && k <= |b.packages|
    ensures ScriptFrom(b, k, r) == Script([], Completed)
    decreases |b.packages| - k
  {
    if k < |b.packages| {
      assert InPlace(b, b.packages[k], r);
      AfterFew(r, []);
      NothingLeft(b, k + 1, r);
    }
  }

  /** A completed run passes the verification, and a registry passes it exactly when a run finds nothing to write. */
  lemma VerifiedMeansNothingToDo(b: Bundle, r: Registry)
    requires Loaded(b)
    ensures RunOf(b, r).end == Completed ==> Verified(b, After(r, RunOf(b, r).writes))
    ensures Verified(b, r) <==> RunOf(b, r) == Script([], Completed)
  {
    if RunOf(b, r).end == Completed {
      CompletedFrom(b, 0, r);
      AfterFew(r, []);
    }
    if Verified(b, r) {
      NothingLeft(b, 0, r);
    }
  }

  // ---- Histories ---------------------------------------------------------------------------------------------------

  /** One run, by a single writer, that is cut off when its budget of registry writes is spent. */
  datatype Attempt = Attempt(bundle: Bundle, budget: nat)

  function Attempted(a: Attempt, r: Registry): Registry {
    var n := |RunOf(a.bundle, r).writes|;
    CutOff(a.bundle, r, if a.budget < n then a.budget else n)
  }

  function History(r: Registry, attempts: seq<Attempt>): Registry
    decreases attempts
  {
    if attempts == [] then r else History(Attempted(attempts[0], r), attempts[1..])
  }

  /** Over any history of crashed and completed runs of any bundles, no published integrity ever changes. */
  lemma {:induction false} IntegrityNeverChanges(r: Registry, attempts: seq<Attempt>)
    ensures Extends(r, History(r, attempts))
    ensures WellFormed(r) ==> WellFormed(History(r, attempts))
    decreases attempts
  {
    if attempts == [] {
    } else {
      hide WellFormed, ScriptFrom, After;
      var a := attempts[0];
      var n := |RunOf(a.bundle, r).writes|;
      ScriptExtends(a.bundle, 0, r, if a.budget < n then a.budget else n);
      IntegrityNeverChanges(Attempted(a, r), attempts[1..]);
    }
  }

  /** Every package of the bundle is published with the bundle's integrity. */
  ghost predicate AllPublished(b: Bundle, r: Registry) {
    forall i | 0 <= i < |b.packages| ::
      var x := Release(b.packages[i].name, b.version);
      x in r.releases && r.releases[x] == b.packages[i].integrity
  }

  ghost predicate Backs(a: Attempt, r: Registry) {
    Latest(r) == Some(a.bundle.version) && AllPublished(a.bundle, r)
  }

  /**
   Over any history of runs of bundles that are not tagged early, `latest` of the entry package points where it did at
   the start, or to a version of which some attempted bundle is published whole.
   */
  lemma {:induction false} LatestIsBacked(r: Registry, attempts: seq<Attempt>)
    requires forall i | 0 <= i < |attempts| :: Loaded(attempts[i].bundle) && !EarlyLatest(attempts[i].bundle)
    ensures Latest(History(r, attempts)) == Latest(r)
            || exists i | 0 <= i < |attempts| :: Backs(attempts[i], History(r, attempts))
    decreases attempts
  {
    if attempts == [] {
    } else {
      hide ScriptFrom, After, Loaded, EarlyLatest, WellFormed;
      var a, later := attempts[0], attempts[1..];
      var b := a.bundle;
      var n := |RunOf(b, r).writes|;
      var r1 := Attempted(a, r);
      ScriptMovesLatest(b, 0, r, if a.budget < n then a.budget else n);
      LatestIsBacked(r1, later);
      IntegrityNeverChanges(r1, later);
      var r2 := History(r1, later);
      if Latest(r2) != Latest(r1) {
        var i :| 0 <= i < |later| && Backs(later[i], r2);
        assert attempts[i + 1] == later[i];
      } else if Latest(r1) != Latest(r) {
        ScriptMovesLatestTo(b, r, if a.budget < n then a.budget else n);
        assert forall i | 0 <= i < |b.packages| :: InPlace(b, b.packages[i], r1);
        assert Backs(attempts[0], r2);
      }
    }
  }

  /** A run moves `latest` to its own version or not at all. */
  lemma ScriptMovesLatestTo(b: Bundle, r: Registry, cut: nat)
    requires cut <= |RunOf(b, r).writes|
    ensures Latest(CutOff(b, r, cut)) in {Latest(r), Some(b.version)}
  {
    OnlyThisVersion(b, 0, r);
    WritesMoveLatestTo(b, RunOf(b, r).writes[..cut], r);
  }

  ghost predicate TagsThisVersion(b: Bundle, w: Write) {
    w.PutTag? ==> w.version == b.version
  }

  lemma {:induction false} OnlyThisVersion(b: Bundle, k: nat, r: Registry)
    requires k <= |b.packages|
    ensures forall i | 0 <= i < |ScriptFrom(b, k, r).writes| :: TagsThisVersion(b, ScriptFrom(b, k, r).writes[i])
    decreases |b.packages| - k
  {
    if k < |b.packages| && !Conflicts(b, b.packages[k], r) {
      OnlyThisVersion(b, k + 1, After(r, PackageWrites(b, b.packages[k], r)));
    }
  }

  lemma {:induction false} WritesMoveLatestTo(b: Bundle, ws: seq<Write>, r: Registry)
    requires forall i | 0 <= i < |ws| :: TagsThisVersion(b, ws[i])
    ensures Latest(After(r, ws)) in {Latest(r), Some(b.version)}
    decreases ws
  {
    if ws != [] {
      assert TagsThisVersion(b, ws[0]);
      WritesMoveLatestTo(b, ws[1..], Apply(r, ws[0]));
    }
  }

  /**
   However often runs of one bundle were cut off, a last uninterrupted run ends as the first one would have, on the
   same registry; if that end is completion, the verification passes.
   */
  lemma {:induction false} RerunsComplete(b: Bundle, r: Registry, attempts: seq<Attempt>)
    requires Loaded(b) && WellFormed(r) && forall i | 0 <= i < |attempts| :: attempts[i].bundle == b
    ensures
      var r' := History(r, attempts);
      && RunOf(b, r').end == RunOf(b, r).end
      && After(r', RunOf(b, r').writes) == After(r, RunOf(b, r).writes)
      && (RunOf(b, r).end == Completed ==> Verified(b, After(r', RunOf(b, r').writes)))
    decreases attempts
  {
    hide ScriptFrom, After, Loaded, WellFormed, Verified;
    if attempts == [] {
      VerifiedMeansNothingToDo(b, r);
    } else {
      var a := attempts[0];
      var n := |RunOf(b, r).writes|;
      var cut := if a.budget < n then a.budget else n;
      CrashesLeaveNoTrace(b, r, cut);
      ScriptExtends(b, 0, r, cut);
      RerunsComplete(b, Attempted(a, r), attempts[1..]);
    }
  }
}
