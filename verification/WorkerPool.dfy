/**
 A pool of workers that share one index: each takes the next target, awaits its result, stores it in the target's slot
 and goes on. At an await any other worker may run; the checks themselves are an oracle from target to result.
 */
module WorkerPool {
  import opened Wrappers

  datatype Worker = NotStarted | Working(index: nat) | Returned

  datatype State<R> = State(next: nat, workers: seq<Worker>, results: map<nat, R>)

  /** What happens between two awaits: a worker starts, or the check it awaits is done. */
  datatype Event = Start(worker: nat) | Finish(worker: nat)

  /** Takes the next index; a worker that finds no target there returns. */
  function Claim<R>(s: State<R>, w: nat, n: nat): State<R>
    requires w < |s.workers|
  {
    s.(next := s.next + 1, workers := s.workers[w := if s.next < n then Working(s.next) else Returned])
  }

  predicate Enabled<R>(s: State<R>, e: Event) {
    e.worker < |s.workers| && match e
      case Start(w) => s.workers[w].NotStarted?
      case Finish(w) => s.workers[w].Working?
  }

  function Apply<T, R>(targets: seq<T>, check: T -> R, s: State<R>, e: Event): State<R>
    requires Enabled(s, e) && (e.Finish? ==> s.workers[e.worker].index < |targets|)
  {
    match e
    case Start(w) => Claim(s, w, |targets|)
    case Finish(w) =>
      var i := s.workers[w].index;
      Claim(s.(results := s.results[i := check(targets[i])]), w, |targets|)
  }

  function Begin<R>(concurrency: nat): State<R> {
    State(0, seq(concurrency, _ => NotStarted), map[])
  }

  // ---- What every step keeps ---------------------------------------------------------------------------------------

  ghost predicate Held<R>(s: State<R>, i: nat) {
    exists w | 0 <= w < |s.workers| :: s.workers[w] == Working(i)
  }

  /**
   Every claimed index is held by a worker or its slot is filled, never both; no index has two workers; a slot holds
   the result of its own target; and once a worker has returned, every index is claimed.
   */
  ghost predicate Inv<T, R>(targets: seq<T>, check: T -> R, s: State<R>) {
    && (forall w | 0 <= w < |s.workers| && s.workers[w].Working? ::
          s.workers[w].index < s.next && s.workers[w].index < |targets| && s.workers[w].index !in s.results)
    && (forall v, w | 0 <= v < w < |s.workers| && s.workers[v].Working? && s.workers[w].Working? ::
          s.workers[v].index != s.workers[w].index)
    && (forall i | i in s.results :: i < s.next && i < |targets| && s.results[i] == check(targets[i]))
    && (forall i: nat | i < s.next && i < |targets| && i !in s.results :: Held(s, i))
    && (forall w | 0 <= w < |s.workers| && s.workers[w].Returned? :: s.next >= |targets|)
  }

  lemma BeginKeepsInv<T, R>(targets: seq<T>, check: T -> R, concurrency: nat)
    ensures Inv(targets, check, Begin(concurrency))
  {}

  lemma ClaimKeepsInv<T, R>(targets: seq<T>, check: T -> R, s: State<R>, w: nat)
    requires Inv(targets, check, s) && w < |s.workers| && s.workers[w].NotStarted?
    ensures Inv(targets, check, Claim(s, w, |targets|))
  {
    var s' := Claim(s, w, |targets|);
    forall i: nat | i < s'.next && i < |targets| && i !in s'.results ensures Held(s', i) {
      if i == s.next {
        assert s'.workers[w] == Working(i);
      } else {
        var v :| 0 <= v < |s.workers| && s.workers[v] == Working(i);
        assert s'.workers[v] == Working(i);
      }
    }
  }

  /** The state between storing a result and taking the next index. */
  lemma StoreKeepsInv<T, R>(targets: seq<T>, check: T -> R, s: State<R>, w: nat)
    requires Inv(targets, check, s) && w < |s.workers| && s.workers[w].Working?
    ensures
      var i := s.workers[w].index;
      i < |targets| && i !in s.results
      && Inv(targets, check, s.(results := s.results[i := check(targets[i])], workers := s.workers[w := NotStarted]))
  {
    var i := s.workers[w].index;
    var s' := s.(results := s.results[i := check(targets[i])], workers := s.workers[w := NotStarted]);
    forall j: nat | j < s'.next && j < |targets| && j !in s'.results ensures Held(s', j) {
      var v :| 0 <= v < |s.workers| && s.workers[v] == Working(j);
      assert s'.workers[v] == Working(j);
    }
  }

  lemma StepKeepsInv<T, R>(targets: seq<T>, check: T -> R, s: State<R>, e: Event)
    requires Inv(targets, check, s) && Enabled(s, e)
    ensures e.Finish? ==> s.workers[e.worker].index < |targets| && s.workers[e.worker].index !in s.results
    ensures Inv(targets, check, Apply(targets, check, s, e))
  {
    hide Inv;
    match e
    case Start(w) => ClaimKeepsInv(targets, check, s, w);
    case Finish(w) =>
      StoreKeepsInv(targets, check, s, w);
      var i := s.workers[w].index;
      var between := s.(results := s.results[i := check(targets[i])], workers := s.workers[w := NotStarted]);
      ClaimKeepsInv(targets, check, between, w);
      assert between.workers[w := if s.next < |targets| then Working(s.next) else Returned]
             == s.workers[w := if s.next < |targets| then Working(s.next) else Returned];
  }

  // ---- Runs --------------------------------------------------------------------------------------------------------

  ghost predicate IsRun<T, R>(targets: seq<T>, check: T -> R, s: State<R>, events: seq<Event>)
    decreases events
  {
    events != [] ==>
      && Enabled(s, events[0]) && (events[0].Finish? ==> s.workers[events[0].worker].index < |targets|)
      && IsRun(targets, check, Apply(targets, check, s, events[0]), events[1..])
  }

  ghost function After<T, R>(targets: seq<T>, check: T -> R, s: State<R>, events: seq<Event>): State<R>
    requires IsRun(targets, check, s, events)
    decreases events
  {
    if events == [] then s else After(targets, check, Apply(targets, check, s, events[0]), events[1..])
  }

  /** Workers that may still move. */
  function Live(workers: seq<Worker>): nat
    decreases workers
  {
    if workers == [] then 0 else (if workers[0].Returned? then 0 else 1) + Live(workers[1..])
  }

  /** Steps left: each live worker will return once, and each unclaimed index be claimed once. */
  function Work<R>(s: State<R>, n: nat): nat {
    Live(s.workers) + if s.next < n then n - s.next else 0
  }

  lemma {:induction false} LiveAfter(workers: seq<Worker>, w: nat, x: Worker)
    requires w < |workers| && !workers[w].Returned?
    ensures Live(workers[w := x]) == if x.Returned? then Live(workers) - 1 else Live(workers)
    decreases workers
  {
    var after := workers[w := x];
    if w == 0 {
      assert after[1..] == workers[1..];
    } else {
      assert after[1..] == workers[1..][w - 1 := x];
      LiveAfter(workers[1..], w - 1, x);
    }
  }

  lemma {:induction false} AllLive(workers: seq<Worker>)
    requires forall w | 0 <= w < |workers| :: workers[w].NotStarted?
    ensures Live(workers) == |workers|
    decreases workers
  {
    if workers != [] {
      AllLive(workers[1..]);
    }
  }

  /** Every step is one step of the work, so no run can go on for ever. */
  lemma {:induction false} RunsEnd<T, R>(targets: seq<T>, check: T -> R, s: State<R>, events: seq<Event>)
    requires Inv(targets, check, s) && IsRun(targets, check, s, events)
    ensures Inv(targets, check, After(targets, check, s, events))
    ensures Work(After(targets, check, s, events), |targets|) + |events| == Work(s, |targets|)
    ensures |After(targets, check, s, events).workers| == |s.workers|
    decreases events
  {
    if events != [] {
      hide Inv;
      var e := events[0];
      var s' := Apply(targets, check, s, e);
      StepKeepsInv(targets, check, s, e);
      LiveAfter(s.workers, e.worker, if s.next < |targets| then Working(s.next) else Returned);
      RunsEnd(targets, check, s', events[1..]);
    }
  }

  /** Nothing is left to happen: every worker has returned. */
  ghost predicate Settled<R>(s: State<R>) {
    forall e :: !Enabled(s, e)
  }

  lemma SettledMeansReturned<R>(s: State<R>)
    requires Settled(s)
    ensures forall w | 0 <= w < |s.workers| :: s.workers[w].Returned?
  {
    forall w: nat | w < |s.workers| ensures s.workers[w].Returned? {
      assert !Enabled(s, Start(w)) && !Enabled(s, Finish(w));
    }
  }

  /** Every slot is filled with the result of its target. */
  ghost predicate AllChecked<T, R>(targets: seq<T>, check: T -> R, results: map<nat, R>) {
    forall i: nat | i < |targets| :: i in results && results[i] == check(targets[i])
  }

  lemma ReturnedMeansClaimed<T, R>(targets: seq<T>, check: T -> R, s: State<R>)
    requires Inv(targets, check, s) && |s.workers| > 0 && s.workers[0].Returned?
    ensures s.next >= |targets|
  {}

  lemma SettledIsComplete<T, R>(targets: seq<T>, check: T -> R, s: State<R>)
    requires Inv(targets, check, s) && Settled(s)
    ensures |s.workers| > 0 ==> AllChecked(targets, check, s.results)
  {
    SettledMeansReturned(s);
    if |s.workers| > 0 {
      ReturnedMeansClaimed(targets, check, s);
      assert forall i: nat :: !Held(s, i);
    }
  }

  /**
   Whatever the interleaving: a run has at most one event per target and per worker; and one that has come to its end
   has exactly that many, and has filled every slot, or had no worker.
   */
  lemma EveryInterleaving<T, R>(targets: seq<T>, check: T -> R, concurrency: nat, events: seq<Event>)
    requires IsRun(targets, check, Begin<R>(concurrency), events)
    ensures
      var s := After(targets, check, Begin<R>(concurrency), events);
      && Inv(targets, check, s)
      && |events| <= |targets| + concurrency
      && (Settled(s) && concurrency > 0 ==>
            |events| == |targets| + concurrency && AllChecked(targets, check, s.results))
  {
    var s0 := Begin<R>(concurrency);
    BeginKeepsInv(targets, check, concurrency);
    AllLive(s0.workers);
    RunsEnd(targets, check, s0, events);
    hide Inv;
    var s := After(targets, check, s0, events);
    if Settled(s) && concurrency > 0 {
      SettledIsComplete(targets, check, s);
      SettledMeansReturned(s);
      NoneLive(s.workers);
      ReturnedMeansClaimed(targets, check, s);
    }
  }

  lemma {:induction false} NoneLive(workers: seq<Worker>)
    requires forall w | 0 <= w < |workers| :: workers[w].Returned?
    ensures Live(workers) == 0
    decreases workers
  {
    if workers != [] {
      NoneLive(workers[1..]);
    }
  }

  // ---- Each target once --------------------------------------------------------------------------------------------

  /** The indices of the checks that a run starts, in order. */
  ghost function Checks<T, R>(targets: seq<T>, check: T -> R, s: State<R>, events: seq<Event>): seq<nat>
    requires IsRun(targets, check, s, events)
    decreases events
  {
    if events == [] then []
    else
      (if s.next < |targets| then [s.next] else [])
      + Checks(targets, check, Apply(targets, check, s, events[0]), events[1..])
  }

  lemma {:induction false} ChecksAreConsecutive<T, R>(targets: seq<T>, check: T -> R, s: State<R>, events: seq<Event>)
    requires IsRun(targets, check, s, events)
    ensures
      var checks, next := Checks(targets, check, s, events), After(targets, check, s, events).next;
      && next == s.next + |events|
      && |checks| == (if next < |targets| then next else |targets|) - (if s.next < |targets| then s.next else |targets|)
      && forall k | 0 <= k < |checks| :: checks[k] == s.next + k
    decreases events
  {
    if events != [] {
      ChecksAreConsecutive(targets, check, Apply(targets, check, s, events[0]), events[1..]);
    }
  }

  /** The k-th check a run starts is that of target k: no target is checked twice, and none is passed over. */
  lemma EachTargetOnce<T, R>(targets: seq<T>, check: T -> R, concurrency: nat, events: seq<Event>)
    requires IsRun(targets, check, Begin<R>(concurrency), events)
    ensures
      var checks := Checks(targets, check, Begin<R>(concurrency), events);
      && |checks| == (if |events| < |targets| then |events| else |targets|)
      && forall k | 0 <= k < |checks| :: checks[k] == k
  {
    ChecksAreConsecutive(targets, check, Begin<R>(concurrency), events);
  }

  // ---- The pool in place -------------------------------------------------------------------------------------------

  /** The workers' shared variables: the next index and the slots of the results. */
  class Pool<T, R> {
    const targets: seq<T>
    const check: T -> R
    var next: nat
    var workers: seq<Worker>
    const results: array<Option<R>>

    constructor (targets: seq<T>, check: T -> R, concurrency: nat)
      ensures this.targets == targets && this.check == check && fresh(results)
      ensures Matches() && Abstract() == Begin(concurrency)
    {
      this.targets, this.check := targets, check;
      next, workers := 0, seq(concurrency, _ => NotStarted);
      results := new Option<R>[|targets|](_ => None);
    }

    ghost predicate Matches()
      reads results
    {
      results.Length == |targets|
    }

    ghost function Filled(): map<nat, R>
      reads results
    {
      map i: nat | i < results.Length && results[i].Some? :: results[i].value
    }

    ghost function Abstract(): State<R>
      reads this, results
    {
      State(next, workers, Filled())
    }

    method TakeNext(w: nat)
      requires w < |workers|
      modifies this
      ensures Abstract() == Claim(old(Abstract()), w, |targets|)
    {
      var index := next;
      next := next + 1;
      workers := workers[w := if index < |targets| then Working(index) else Returned];
    }

    method FinishOne(w: nat)
      requires Matches() && Inv(targets, check, Abstract()) && Enabled(Abstract(), Finish(w))
      modifies this, results
      ensures Matches() && Inv(targets, check, Abstract())
      ensures old(workers)[w].index < |targets| && Abstract() == Apply(targets, check, old(Abstract()), Finish(w))
    {
      ghost var before := Abstract();
      StepKeepsInv(targets, check, before, Finish(w));
      var i := workers[w].index;
      results[i] := Some(check(targets[i]));
      EqualMaps(Filled(), before.results[i := check(targets[i])]);
      TakeNext(w);
    }

    /** Starts every worker, then lets any of those that await a check go on, until all have returned. */
    method Run()
      requires Matches() && Abstract() == Begin(|workers|)
      modifies this, results
      ensures Matches() && Inv(targets, check, Abstract()) && Settled(Abstract()) && |workers| == old(|workers|)
      ensures |workers| == 0 ==> Filled() == map[]
    {
      hide Inv, Filled, Live;
      BeginKeepsInv(targets, check, |workers|);
      for w := 0 to |workers|
        invariant |workers| == old(|workers|) && (|workers| == 0 ==> Filled() == map[])
        invariant Matches() && Inv(targets, check, Abstract())
        invariant forall v | 0 <= v < |workers| :: workers[v].NotStarted? <==> v >= w
      {
        StepKeepsInv(targets, check, Abstract(), Start(w));
        TakeNext(w);
      }
      while exists w :: 0 <= w < |workers| && workers[w].Working?
        invariant |workers| == old(|workers|) && (|workers| == 0 ==> Filled() == map[])
        invariant Matches() && Inv(targets, check, Abstract())
        invariant forall v | 0 <= v < |workers| :: !workers[v].NotStarted?
        decreases Work(Abstract(), |targets|)
      {
        var w: nat :| w < |workers| && workers[w].Working?;
        LiveAfter(workers, w, if next < |targets| then Working(next) else Returned);
        FinishOne(w);
      }
    }
  }

  /**
   The results in target order, whichever worker went on at each await. A result is missing exactly when there are
   targets and no worker.
   */
  method RunAll<T, R>(targets: seq<T>, concurrency: nat, check: T -> R) returns (r: Result<seq<R>, T>)
    ensures concurrency > 0 || targets == [] ==>
              r.Ok? && |r.value| == |targets| && forall i | 0 <= i < |targets| :: r.value[i] == check(targets[i])
    ensures concurrency == 0 && targets != [] ==> r == Err(targets[0])
  {
    var pool := new Pool(targets, check, concurrency);
    pool.Run();
    SettledIsComplete(targets, check, pool.Abstract());
    var ordered: seq<R> := [];
    for i := 0 to |targets|
      invariant |ordered| == i && pool.Matches() && Inv(targets, check, pool.Abstract())
      invariant concurrency > 0 ==> AllChecked(targets, check, pool.Filled())
      invariant |pool.workers| == concurrency
      invariant concurrency == 0 ==> pool.Filled() == map[] && i == 0
      invariant forall j | 0 <= j < i :: ordered[j] == check(targets[j])
    {
      if pool.results[i].None? {
        assert i !in pool.Filled();
        return Err(targets[i]);
      }
      assert i in pool.Filled();
      ordered := ordered + [pool.results[i].value];
    }
    r := Ok(ordered);
  }
}
