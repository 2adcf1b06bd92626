/**
 The publishing process itself: it changes the registry one write at a time, and dies when its budget of writes is
 spent. Each method is proved to issue the writes of the script it stands for.
 */
module RegistryPublication {
  import opened Wrappers
  import opened Publication
  import opened PublicationSafety

  datatype Problem =
    | Missing(name: string)
    | WrongIntegrity(name: string)
    | WrongTag(name: string, tag: string, found: Option<string>)

  datatype Outcome = Published | Crashed | Failed(end: End) | Rejected(problem: Problem)

  function RemoteIntegrity(r: Registry, x: Release): Option<string> {
    if x in r.releases then Some(r.releases[x]) else None
  }

  function RemoteDistTag(r: Registry, t: Tag): Option<string> {
    if t in r.tags then Some(r.tags[t]) else None
  }

  /**
   The problem is that of the first package not in place: absent, other bytes, or dist-tag elsewhere, in that order.
   */
  ghost predicate Names(b: Bundle, r: Registry, k: nat, problem: Problem)
    requires k < |b.packages|
  {
    var p := b.packages[k];
    var x := Release(p.name, b.version);
    && AllInPlace(b, k, r)
    && match problem
       case Missing(name) => name == p.name && x !in r.releases
       case WrongIntegrity(name) => name == p.name && Conflicts(b, p, r)
       case WrongTag(name, tag, found) =>
         && name == p.name && tag == b.distTag && x in r.releases && !Conflicts(b, p, r)
         && found == RemoteDistTag(r, Tag(name, tag)) && found != Some(b.version)
  }

  method VerifyRemote(b: Bundle, r: Registry) returns (problem: Option<Problem>)
    ensures problem.None? <==> AllInPlace(b, |b.packages|, r)
    ensures problem.Some? ==> exists k | 0 <= k < |b.packages| :: Names(b, r, k, problem.value)
  {
    for k := 0 to |b.packages|
      invariant AllInPlace(b, k, r)
    {
      var p := b.packages[k];
      var integrity := RemoteIntegrity(r, Release(p.name, b.version));
      if integrity.None? {
        problem := Some(Missing(p.name));
        assert Names(b, r, k, problem.value) && !InPlace(b, p, r);
        return;
      }
      if integrity.value != p.integrity {
        problem := Some(WrongIntegrity(p.name));
        assert Names(b, r, k, problem.value) && !InPlace(b, p, r);
        return;
      }
      var found := RemoteDistTag(r, Tag(p.name, b.distTag));
      if found != Some(b.version) {
        problem := Some(WrongTag(p.name, b.distTag, found));
        assert Names(b, r, k, problem.value) && !InPlace(b, p, r);
        return;
      }
    }
    problem := None;
  }

  method VerifyReleaseEntryDistTag(b: Bundle, r: Registry) returns (problem: Option<Problem>)
    ensures problem.None? <==> HasTag(r, RELEASE_ENTRY_PACKAGE, LATEST_DIST_TAG, b.version)
    ensures problem.Some? ==> problem.value == WrongTag(RELEASE_ENTRY_PACKAGE, LATEST_DIST_TAG, Latest(r))
  {
    var found := RemoteDistTag(r, Tag(RELEASE_ENTRY_PACKAGE, LATEST_DIST_TAG));
    problem := if found == Some(b.version) then None
               else Some(WrongTag(RELEASE_ENTRY_PACKAGE, LATEST_DIST_TAG, found));
  }

  method Verify(b: Bundle, r: Registry) returns (outcome: Outcome)
    ensures Verified(b, r) <==> outcome == Published
    ensures !Verified(b, r) ==> outcome.Rejected?
  {
    var problem := VerifyRemote(b, r);
    if problem.None? {
      problem := VerifyReleaseEntryDistTag(b, r);
    }
    outcome := if problem.None? then Published else Rejected(problem.value);
  }

  class Publisher {
    const bundle: Bundle
    var registry: Registry
    /** How many more registry writes happen before the process dies. */
    var budget: nat

    constructor (b: Bundle, r: Registry, writes: nat)
      ensures bundle == b && registry == r && budget == writes
    {
      bundle, registry, budget := b, r, writes;
    }

    method Issue(w: Write) returns (alive: bool)
      modifies this
      ensures alive <==> old(budget) > 0
      ensures registry == if alive then Apply(old(registry), w) else old(registry)
      ensures budget == if alive then old(budget) - 1 else 0
    {
      alive := budget > 0;
      if alive {
        registry := Apply(registry, w);
        budget := budget - 1;
      }
    }

    /** The outcome is None when the run goes on. */
    method EnsureDistTag(name: string, tag: string) returns (outcome: Option<Outcome>)
      modifies this
      ensures
        var r := old(registry);
        var w := PutTag(Tag(name, tag), bundle.version);
        if HasTag(r, name, tag, bundle.version) then
          outcome == None && registry == r && budget == old(budget)
        else if Release(name, bundle.version) !in r.releases then
          outcome == Some(Failed(NoRelease(name))) && registry == r && budget == old(budget)
        else if old(budget) == 0 then
          outcome == Some(Crashed) && registry == r && budget == 0
        else
          outcome == None && registry == Apply(r, w) && budget == old(budget) - 1
    {
      if RemoteDistTag(registry, Tag(name, tag)) == Some(bundle.version) {
        return None;
      }
      if Release(name, bundle.version) !in registry.releases {
        return Some(Failed(NoRelease(name)));
      }
      var alive := Issue(PutTag(Tag(name, tag), bundle.version));
      outcome := if alive then None else Some(Crashed);
    }

    method PublishPackage(p: Package) returns (outcome: Option<Outcome>)
      modifies this
      ensures
        var ws := PackageWrites(bundle, p, old(registry));
        if Conflicts(bundle, p, old(registry)) then
          outcome == Some(Failed(Conflict(p.name))) && registry == old(registry) && budget == old(budget)
        else if old(budget) < |ws| then
          outcome == Some(Crashed) && registry == After(old(registry), ws[..old(budget)])
        else
          outcome == None && registry == After(old(registry), ws) && budget == old(budget) - |ws|
    {
      ghost var ws := PackageWrites(bundle, p, registry);
      AfterFew(registry, ws);
      if budget < |ws| {
        AfterFew(registry, ws[..budget]);
      }
      var integrity := RemoteIntegrity(registry, Release(p.name, bundle.version));
      if integrity.None? {
        var alive := Issue(PutRelease(Release(p.name, bundle.version), p.integrity));
        if !alive {
          return Some(Crashed);
        }
        alive := Issue(PutTag(Tag(p.name, bundle.distTag), bundle.version));
        if !alive {
          return Some(Crashed);
        }
      } else if integrity.value != p.integrity {
        return Some(Failed(Conflict(p.name)));
      }
      outcome := EnsureDistTag(p.name, bundle.distTag);
    }

    /**
     A run does to the registry what its script says, up to the write it dies at. When it is not cut off it ends as
     the script says, and the verification at its end never rejects it.
     */
    method Publish() returns (outcome: Outcome)
      requires Loaded(bundle)
      modifies this
      ensures
        var s := RunOf(bundle, old(registry));
        if old(budget) < |s.writes| then
          outcome == Crashed && registry == CutOff(bundle, old(registry), old(budget))
        else
          && registry == After(old(registry), s.writes)
          && outcome == (if s.end == Completed then Published else Failed(s.end))
    {
      hide PackageWrites, Conflicts, After, Loaded, InPlace, HasTag;
      ghost var start, whole := registry, RunOf(bundle, registry);
      ghost var writes: seq<Write> := [];
      AfterNone(start);
      for k := 0 to |bundle.packages|
        invariant writes + ScriptFrom(bundle, k, registry).writes == whole.writes
        invariant ScriptFrom(bundle, k, registry).end == whole.end
        invariant registry == After(start, writes) && budget + |writes| == old(budget)
      {
        ghost var before := registry;
        ghost var ws := PackageWrites(bundle, bundle.packages[k], before);
        var stop := PublishPackage(bundle.packages[k]);
        if stop.Some? {
          if stop.value == Crashed {
            StopsInside(start, writes, ws, whole.writes, old(budget));
          } else {
            assert writes == whole.writes;
          }
          return stop.value;
        }
        AfterJoins(start, writes, ws);
        writes := writes + ws;
      }
      ghost var before := registry;
      var stop := EnsureDistTag(RELEASE_ENTRY_PACKAGE, LATEST_DIST_TAG);
      EntryStep(bundle, start, writes, before);
      if stop.Some? {
        return stop.value;
      }
      VerifiedMeansNothingToDo(bundle, start);
      outcome := Verify(bundle, registry);
    }
  }

  lemma AfterNone(r: Registry)
    ensures After(r, []) == r
  {}

  lemma StopsInside(r: Registry, done: seq<Write>, ws: seq<Write>, all: seq<Write>, budget: nat)
    requires |done| <= budget < |done| + |ws| && done + ws <= all
    ensures After(r, all[..budget]) == After(After(r, done), ws[..budget - |done|])
  {
    assert all[..budget] == done + ws[..budget - |done|];
    AfterJoins(r, done, ws[..budget - |done|]);
  }

  lemma EntryStep(b: Bundle, start: Registry, writes: seq<Write>, r: Registry)
    requires r == After(start, writes)
    ensures
      var s := EntryScript(b, r);
      && After(start, writes + s.writes) == (if s.writes == [] then r else Apply(r, s.writes[0]))
      && (writes + s.writes)[..|writes|] == writes
  {
    var s := EntryScript(b, r);
    AfterJoins(start, writes, s.writes);
    AfterFew(r, s.writes);
  }
}
