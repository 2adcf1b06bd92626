/**
 The bounded scheduler over a validated gate graph, as a transition system over its own state, the sequential
 reference every schedule is compared with, and the `RunGates` method whose runs are behaviours of that system.
 */
module GateScheduler {
  import Strings
  import opened Wrappers
  import opened Digraph
  import opened GateGraph

  datatype Status = Passed | Failed | Skipped

  datatype GateState = Pending | Running | Settled(status: Status)

  datatype GateResult = GateResult(gate: Gate, status: Status, exitCode: Option<int>, error: string)

  /** The child-process boundary: it always resolves, and may report any status. */
  type Executor = Gate -> GateResult

  type States = map<string, GateState>

  type Results = map<string, GateResult>

  /** A gate list with unique ids: the ids in list order, and the gate of each. */
  datatype Plan = Plan(order: seq<string>, gate: map<string, Gate>)

  function PlanOf(gates: seq<Gate>): (p: Plan)
    ensures forall k | 0 <= k < |p.order| :: p.order[k] in p.gate
  {
    Plan(seq(|gates|, i requires 0 <= i < |gates| => gates[i].id), ById(gates))
  }

  ghost predicate Covers(p: Plan) {
    && Keyed(p.gate)
    && (forall k | 0 <= k < |p.order| :: p.order[k] in p.gate)
    && (forall id {:trigger id in p.order} | id in p.gate :: id in p.order)
  }

  ghost predicate ValidPlan(p: Plan) {
    Covers(p) && KnownPredecessors(p.gate) && Acyclic(GraphOf(p.gate))
  }

  lemma PlanIsValid(gates: seq<Gate>)
    requires ValidGraph(gates)
    ensures ValidPlan(PlanOf(gates))
  {
    var p := PlanOf(gates);
    forall id {:trigger id in p.order} | id in p.gate ensures id in p.order {
      var i := PositionOf(gates, id);
      assert p.order[i] == id;
    }
  }

  // ---- Readiness --------------------------------------------------------------------------------------------------

  predicate Is(states: States, id: string, s: GateState) {
    id in states && states[id] == s
  }

  predicate GateSettled(states: States, id: string) {
    id in states && states[id].Settled?
  }

  predicate GateFailed(states: States, id: string) {
    Is(states, id, Settled(Failed)) || Is(states, id, Settled(Skipped))
  }

  predicate PredecessorsReady(g: Gate, states: States) {
    && (forall n | n in g.needs :: Is(states, n, Settled(Passed)))
    && (forall a | a in g.after :: GateSettled(states, a))
  }

  predicate Ready(p: Plan, id: string, states: States) {
    id in p.gate && Is(states, id, Pending) && PredecessorsReady(p.gate[id], states)
  }

  predicate Blocked(p: Plan, id: string, states: States) {
    id in p.gate && Is(states, id, Pending) && exists n :: n in p.gate[id].needs && GateFailed(states, n)
  }

  function FirstReady(p: Plan, order: seq<string>, states: States): (r: Option<string>)
    ensures r.Some? ==> Ready(p, r.value, states)
    ensures r.None? <==> forall k | 0 <= k < |order| :: !Ready(p, order[k], states)
  {
    if order == [] then None
    else if Ready(p, order[0], states) then Some(order[0])
    else FirstReady(p, order[1..], states)
  }

  function FirstBlocked(p: Plan, order: seq<string>, states: States): (r: Option<string>)
    ensures r.Some? ==> Blocked(p, r.value, states)
    ensures r.None? <==> forall k | 0 <= k < |order| :: !Blocked(p, order[k], states)
  {
    if order == [] then None
    else if Blocked(p, order[0], states) then Some(order[0])
    else FirstBlocked(p, order[1..], states)
  }

  lemma ReadyMeans(p: Plan, states: States)
    ensures forall id | Ready(p, id, states) ::
              && id in p.gate && id in states && states[id] == Pending
              && (forall n | n in p.gate[id].needs :: n in states && states[n] == Settled(Passed))
              && (forall a | a in p.gate[id].after :: a in states && states[a].Settled?)
  {}

  /** The ready gate found is the first of the order; none is found exactly when none is ready. */
  lemma {:induction false} FirstReadyIsFirst(p: Plan, order: seq<string>, states: States) returns (k: nat)
    ensures
      match FirstReady(p, order, states)
      case Some(id) =>
        && k < |order| && order[k] == id && Ready(p, id, states)
        && (forall n | n in p.gate[id].needs :: n in states && states[n] == Settled(Passed))
        && (forall a | a in p.gate[id].after :: a in states && states[a].Settled?)
        && forall j | 0 <= j < k :: !Ready(p, order[j], states)
      case None => forall j | 0 <= j < |order| :: !Ready(p, order[j], states)
    decreases order
  {
    k := 0;
    ReadyMeans(p, states);
    hide Ready;
    if order != [] && !Ready(p, order[0], states) {
      k := FirstReadyIsFirst(p, order[1..], states);
      k := k + 1;
      assert forall j | 0 < j < |order| :: order[j] == order[1..][j - 1];
    }
  }

  /** The blocked gate found is the first of the order; none is found exactly when none is blocked. */
  lemma {:induction false} FirstBlockedIsFirst(p: Plan, order: seq<string>, states: States) returns (k: nat)
    ensures
      match FirstBlocked(p, order, states)
      case Some(id) =>
        k < |order| && order[k] == id && Blocked(p, id, states) && forall j | 0 <= j < k ::
            !Blocked(p, order[j], states)
      case None => forall j | 0 <= j < |order| :: !Blocked(p, order[j], states)
    decreases order
  {
    k := 0;
    hide Blocked;
    if order != [] && !Blocked(p, order[0], states) {
      k := FirstBlockedIsFirst(p, order[1..], states);
      k := k + 1;
      assert forall j | 0 < j < |order| :: order[j] == order[1..][j - 1];
    }
  }

  function FailedNeeds(needs: seq<string>, states: States): seq<string> {
    if needs == [] then []
    else (if GateFailed(states, needs[0]) then [needs[0]] else []) + FailedNeeds(needs[1..], states)
  }

  /** Exactly the needs that failed or were skipped, in the order of the list. */
  lemma {:induction false} FailedNeedsAre(before: seq<string>, n: string, after: seq<string>, states: States)
    ensures
      FailedNeeds(before + [n] + after, states) ==
        FailedNeeds(before, states)
        + (if n in states && (states[n] == Settled(Failed) || states[n] == Settled(Skipped)) then [n] else [])
        + FailedNeeds(after, states)
    decreases before
  {
    var all := before + [n] + after;
    if before == [] {
      assert all == [n] + after && all[1..] == after;
    } else {
      hide GateFailed;
      assert all[0] == before[0] && all[1..] == before[1..] + [n] + after;
      FailedNeedsAre(before[1..], n, after, states);
    }
  }

  function SkipResult(g: Gate, states: States): GateResult {
    GateResult(g, Skipped, None, "dependency failed or skipped: "
        + Strings.JoinWith(FailedNeeds(g.needs, states), ", "))
  }

  // ---- The sequential reference -----------------------------------------------------------------------------------

  /** The states of a run in which exactly the gates in `r` have settled and none is running. */
  function StatesOf(p: Plan, r: Results): States {
    map id | id in p.gate :: if id in r then Settled(r[id].status) else Pending
  }

  /**
   One gate at a time: execute the first ready gate; when none is ready, skip the first gate with a failed need; stop
   when neither applies. It mentions neither a concurrency bound nor a settle order.
   */
  function Reference(p: Plan, exec: Executor, r: Results): Results
    decreases p.gate.Keys - r.Keys
  {
    var states := StatesOf(p, r);
    match FirstReady(p, p.order, states)
    case Some(id) => Progress(p, r, id, exec(p.gate[id])); Reference(p, exec, r[id := exec(p.gate[id])])
    case None =>
      match FirstBlocked(p, p.order, states)
      case Some(id) =>
        Progress(p, r, id, SkipResult(p.gate[id], states));
        Reference(p, exec, r[id := SkipResult(p.gate[id], states)])
      case None => r
  }

  lemma Progress(p: Plan, r: Results, id: string, result: GateResult)
    requires Is(StatesOf(p, r), id, Pending)
    ensures p.gate.Keys - r[id := result].Keys < p.gate.Keys - r.Keys
  {
    assert id in p.gate.Keys - r.Keys;
  }

  lemma StaysReady(p: Plan, r: Results, id: string, other: string, result: GateResult)
    requires Ready(p, id, StatesOf(p, r)) && other != id && other !in r
    ensures Ready(p, id, StatesOf(p, r[other := result]))
  {
    var before, after := StatesOf(p, r), StatesOf(p, r[other := result]);
    assert forall x | GateSettled(before, x) :: Is(after, x, before[x]);
  }

  lemma UpdatesCommute(r: Results, a: string, x: GateResult, b: string, y: GateResult)
    requires a != b
    ensures r[a := x][b := y] == r[b := y][a := x]
  {
  }

  lemma ReadyIsFound(p: Plan, id: string, states: States)
    requires Covers(p) && Ready(p, id, states)
    ensures FirstReady(p, p.order, states).Some?
  {
    assert id in p.order;
  }

  /** Executing any ready gate early does not change where the reference ends up. */
  lemma {:induction false} ReadyGatesCommute(p: Plan, exec: Executor, r: Results, id: string)
    requires Covers(p) && Ready(p, id, StatesOf(p, r))
    ensures Reference(p, exec, r) == Reference(p, exec, r[id := exec(p.gate[id])])
    decreases p.gate.Keys - r.Keys
  {
    ReadyIsFound(p, id, StatesOf(p, r));
    var first := FirstReady(p, p.order, StatesOf(p, r)).value;
    if first != id {
      var x, y := exec(p.gate[first]), exec(p.gate[id]);
      Progress(p, r, first, x);
      Progress(p, r, id, y);
      StaysReady(p, r, id, first, x);
      StaysReady(p, r, first, id, y);
      ReadyGatesCommute(p, exec, r[first := x], id);
      ReadyGatesCommute(p, exec, r[id := y], first);
      UpdatesCommute(r, id, y, first, x);
    }
  }

  /** A valid graph never stalls: while a gate is unsettled, some gate is ready or blocked by a failure. */
  lemma NoStall(p: Plan, r: Results)
    requires ValidPlan(p) && p.gate.Keys - r.Keys != {}
    ensures FirstReady(p, p.order, StatesOf(p, r)).Some? || FirstBlocked(p, p.order, StatesOf(p, r)).Some?
  {
    var id := MinimalNode(GraphOf(p.gate), p.gate.Keys - r.Keys);
    MinimalIsLive(p, r, id);
    assert id in p.order;
  }

  lemma MinimalIsLive(p: Plan, r: Results, id: string)
    requires KnownPredecessors(p.gate) && id in p.gate && id !in r
    requires forall y | y in p.gate.Keys - r.Keys :: !Edge(GraphOf(p.gate), id, y)
    ensures Ready(p, id, StatesOf(p, r)) || Blocked(p, id, StatesOf(p, r))
  {
    if !Ready(p, id, StatesOf(p, r)) && !Blocked(p, id, StatesOf(p, r)) {
      var y := UnsettledPredecessor(p, id, StatesOf(p, r));
      KnownPredecessor(p.gate, id, y);
    }
  }

  lemma UnsettledPredecessor(p: Plan, id: string, states: States) returns (y: string)
    requires id in p.gate && Is(states, id, Pending) && !Ready(p, id, states) && !Blocked(p, id, states)
    ensures (y in p.gate[id].needs || y in p.gate[id].after) && !GateSettled(states, y)
  {
    var g := p.gate[id];
    if n :| n in g.needs && !Is(states, n, Settled(Passed)) {
      assert !GateFailed(states, n);
      if n in states && states[n].Settled? {
        match states[n].status { case Passed => case Failed => case Skipped => }
      }
      y := n;
    } else {
      var a :| a in g.after && !GateSettled(states, a);
      y := a;
    }
  }

  // ---- The recursive specification of the outcomes ---------------------------------------------------------------

  predicate Passes(status: map<string, Status>, id: string) {
    id in status && status[id] == Passed
  }

  predicate AllPassed(needs: seq<string>, status: map<string, Status>) {
    forall n | n in needs :: Passes(status, n)
  }

  /** Every gate has a status: its executor's when all its needs passed, and otherwise it is skipped. */
  ghost predicate Outcomes(p: Plan, exec: Executor, status: map<string, Status>) {
    && status.Keys == p.gate.Keys
    && forall id {:trigger status[id]} | id in status ::
         status[id] == if AllPassed(p.gate[id].needs, status) then exec(p.gate[id]).status else Skipped
  }

  /** On a valid graph the recursive equations have one solution. */
  lemma OutcomesUnique(p: Plan, exec: Executor, one: map<string, Status>, two: map<string, Status>)
    requires Acyclic(GraphOf(p.gate))
    requires Outcomes(p, exec, one) && Outcomes(p, exec, two)
    ensures one == two
  {
    var differ := set id | id in one && one[id] != two[id];
    if differ != {} {
      var id := MinimalNode(GraphOf(p.gate), differ);
      AgreeingNeedsAgree(p, exec, one, two, differ, id);
      assert false;
    }
    forall id | id in one ensures one[id] == two[id] {
      assert id !in differ;
    }
  }

  lemma AgreeingNeedsAgree(p: Plan, exec: Executor, one: map<string, Status>, two: map<string, Status>,
                           differ: set<string>, id: string)
    requires Outcomes(p, exec, one) && Outcomes(p, exec, two)
    requires id in p.gate && forall n | n in one && n !in differ :: one[n] == two[n]
    requires forall n | n in differ :: !Edge(GraphOf(p.gate), id, n)
    ensures one[id] == two[id]
  {
    forall n | n in p.gate[id].needs ensures Passes(one, n) == Passes(two, n) {
      assert Edge(GraphOf(p.gate), id, n);
    }
  }

  predicate HasStatus(r: Results, id: string, passed: bool) {
    id in r && (r[id].status == Passed) == passed
  }

  /** What a settled gate's result says about its needs. */
  ghost predicate JustifiedGate(exec: Executor, r: Results, g: Gate, result: GateResult) {
    || (result == exec(g) && forall n | n in g.needs :: HasStatus(r, n, true))
    || (result.status == Skipped && exists n :: n in g.needs && HasStatus(r, n, false))
  }

  ghost predicate Justified(p: Plan, exec: Executor, r: Results) {
    && r.Keys <= p.gate.Keys
    && forall id {:trigger r[id]} | id in r :: JustifiedGate(exec, r, p.gate[id], r[id])
  }

  function Statuses(r: Results): map<string, Status> {
    map id | id in r :: r[id].status
  }

  /** The reference settles every gate of a valid graph, and its statuses are the recursive ones. */
  lemma {:induction false} ReferenceMeetsOutcomes(p: Plan, exec: Executor, r: Results)
    requires ValidPlan(p) && Justified(p, exec, r)
    ensures Reference(p, exec, r).Keys == p.gate.Keys
    ensures Outcomes(p, exec, Statuses(Reference(p, exec, r)))
    decreases p.gate.Keys - r.Keys
  {
    var states := StatesOf(p, r);
    match FirstReady(p, p.order, states)
    case Some(id) =>
      Progress(p, r, id, exec(p.gate[id]));
      SettlingKeepsJustified(p, exec, r, id, exec(p.gate[id]));
      ReferenceMeetsOutcomes(p, exec, r[id := exec(p.gate[id])]);
    case None =>
      match FirstBlocked(p, p.order, states)
      case Some(id) =>
        Progress(p, r, id, SkipResult(p.gate[id], states));
        SettlingKeepsJustified(p, exec, r, id, SkipResult(p.gate[id], states));
        ReferenceMeetsOutcomes(p, exec, r[id := SkipResult(p.gate[id], states)]);
      case None =>
        if p.gate.Keys - r.Keys != {} {
          NoStall(p, r);
        }
        forall id | id in p.gate ensures id in r {
          assert id in r || id in p.gate.Keys - r.Keys;
        }
        JustifiedMeetsOutcomes(p, exec, r);
  }

  lemma JustifiedGateExtends(exec: Executor, r: Results, h: Gate, hr: GateResult, id: string, result: GateResult)
    requires JustifiedGate(exec, r, h, hr) && id !in r
    ensures JustifiedGate(exec, r[id := result], h, hr)
  {
    var r' := r[id := result];
    assert forall n, passed | HasStatus(r, n, passed) :: HasStatus(r', n, passed);
  }

  lemma SettlingKeepsJustified(p: Plan, exec: Executor, r: Results, id: string, result: GateResult)
    requires Justified(p, exec, r)
    requires
      || (Ready(p, id, StatesOf(p, r)) && result == exec(p.gate[id]))
      || (Blocked(p, id, StatesOf(p, r)) && result.status == Skipped)
    ensures Justified(p, exec, r[id := result])
  {
    var r', states := r[id := result], StatesOf(p, r);
    assert forall n | Is(states, n, Settled(Passed)) :: HasStatus(r', n, true);
    assert forall n | GateFailed(states, n) :: HasStatus(r', n, false);
    forall h {:trigger r'[h]} | h in r' ensures JustifiedGate(exec, r', p.gate[h], r'[h]) {
      if h != id {
        JustifiedGateExtends(exec, r, p.gate[h], r[h], id, result);
      }
    }
  }

  lemma JustifiedMeetsOutcomes(p: Plan, exec: Executor, r: Results)
    requires r.Keys == p.gate.Keys && Justified(p, exec, r)
    ensures Outcomes(p, exec, Statuses(r))
  {
    var status := Statuses(r);
    forall id {:trigger status[id]} | id in status
      ensures status[id] == if AllPassed(p.gate[id].needs, status) then exec(p.gate[id]).status else Skipped
    {
      assert JustifiedGate(exec, r, p.gate[id], r[id]);
      assert forall n | n in r :: HasStatus(r, n, status[n] == Passed);
    }
  }

  // ---- The scheduler as a transition system ------------------------------------------------------------------------

  datatype Observation = Observation(id: string, result: GateResult)

  datatype Sched = Sched(states: States, results: Results, running: seq<string>, observed: seq<Observation>)

  datatype Event = Start(id: string) | Settle(slot: nat) | Skip(id: string)

  function Initial(p: Plan): Sched {
    Sched(map id | id in p.gate :: Pending, map[], [], [])
  }

  /**
   The only event a loop turn may take next: start the first ready gate while there is room; with the pool full or
   nothing ready, let any running gate settle first; with nothing running, skip the first blocked gate.
   */
  predicate Enabled(p: Plan, max: nat, s: Sched, e: Event) {
    match e
    case Start(id) => |s.running| < max && FirstReady(p, p.order, s.states) == Some(id)
    case Settle(i) =>
      i < |s.running| && s.running[i] in p.gate && (|s.running| == max || FirstReady(p, p.order, s.states).None?)
    case Skip(id) =>
      s.running == [] && FirstReady(p, p.order, s.states).None? && FirstBlocked(p, p.order, s.states) == Some(id)
  }

  function Without<T>(s: seq<T>, i: nat): seq<T>
    requires i < |s|
  {
    s[..i] + s[i + 1..]
  }

  function Record(s: Sched, id: string, result: GateResult, running: seq<string>): Sched {
    Sched(s.states[id := Settled(result.status)], s.results[id := result], running, s.observed
        + [Observation(id, result)])
  }

  function Apply(p: Plan, exec: Executor, s: Sched, e: Event): Sched
    requires e.Settle? ==> e.slot < |s.running| && s.running[e.slot] in p.gate
    requires e.Skip? ==> e.id in p.gate
  {
    match e
    case Start(id) => s.(states := s.states[id := Running], running := s.running + [id])
    case Settle(i) => Record(s, s.running[i], exec(p.gate[s.running[i]]), Without(s.running, i))
    case Skip(id) => Record(s, id, SkipResult(p.gate[id], s.states), s.running)
  }

  /** The state after a run of enabled events, or None when some event was not enabled. */
  function Run(p: Plan, max: nat, exec: Executor, log: seq<Event>): Option<Sched> {
    if log == [] then Some(Initial(p))
    else
      var before := Run(p, max, exec, log[..|log| - 1]);
      if before.Some? && Enabled(p, max, before.value, log[|log| - 1])
      then Some(Apply(p, exec, before.value, log[|log| - 1]))
      else None
  }

  predicate Complete(s: Sched) {
    forall id | id in s.states :: s.states[id].Settled?
  }

  // ---- What every step keeps ---------------------------------------------------------------------------------------

  ghost predicate ResultsRecorded(p: Plan, states: States, results: Results) {
    && states.Keys == p.gate.Keys
    && results.Keys <= p.gate.Keys
    && forall id {:trigger states[id]} | id in states ::
         if id in results then states[id] == Settled(results[id].status) else !states[id].Settled?
  }

  /**
   The running list holds exactly the gates in state running, once each, at most `max` of them, all with their
   predecessors done.
   */
  ghost predicate PoolIsRunning(p: Plan, max: nat, states: States, running: seq<string>) {
    && |running| <= max
    && (forall k | 0 <= k < |running| :: running[k] in p.gate && Is(states, running[k], Running))
    && (forall k | 0 <= k < |running| :: PredecessorsReady(p.gate[running[k]], states))
    && (forall j, k | 0 <= j < k < |running| :: running[j] != running[k])
    && (forall id {:trigger id in running} | Is(states, id, Running) :: id in running)
  }

  /** The observations are recorded results, one for each settled gate. */
  ghost predicate ObservedOnce(results: Results, observed: seq<Observation>) {
    && (forall k | 0 <= k < |observed| :: observed[k].id in results && results[observed[k].id] == observed[k].result)
    && (forall i, j | 0 <= i < j < |observed| :: observed[i].id != observed[j].id)
    && |observed| == |results|
  }

  ghost predicate Inv(p: Plan, max: nat, exec: Executor, s: Sched) {
    && ResultsRecorded(p, s.states, s.results)
    && PoolIsRunning(p, max, s.states, s.running)
    && ObservedOnce(s.results, s.observed)
    && Justified(p, exec, Credit(p, exec, s.running, s.results))
  }

  /** The results with every running gate already credited with the outcome its executor will report. */
  function Credit(p: Plan, exec: Executor, running: seq<string>, results: Results): Results
    requires forall k | 0 <= k < |running| :: running[k] in p.gate
  {
    if running == [] then results
    else
      var last := running[|running| - 1];
      Credit(p, exec, running[..|running| - 1], results)[last := exec(p.gate[last])]
  }

  /** Where the reference goes from a state: what every step keeps. */
  function EndPoint(p: Plan, exec: Executor, running: seq<string>, results: Results): Results
    requires forall k | 0 <= k < |running| :: running[k] in p.gate
  {
    Reference(p, exec, Credit(p, exec, running, results))
  }

  lemma CreditLookup(p: Plan, exec: Executor, running: seq<string>, results: Results, id: string)
    requires forall k | 0 <= k < |running| :: running[k] in p.gate
    ensures id in Credit(p, exec, running, results) <==> id in results || id in running
    ensures id !in running && id in results ==> Credit(p, exec, running, results)[id] == results[id]
  {
    if running != [] {
      var last, front := running[|running| - 1], running[..|running| - 1];
      CreditLookup(p, exec, front, results, id);
      assert running == front + [last];
    }
  }

  lemma CreditInsert(p: Plan, exec: Executor, running: seq<string>, results: Results, id: string, x: GateResult)
    requires forall k | 0 <= k < |running| :: running[k] in p.gate && running[k] != id
    ensures Credit(p, exec, running, results[id := x]) == Credit(p, exec, running, results)[id := x]
  {
    if running != [] {
      var last, front := running[|running| - 1], running[..|running| - 1];
      CreditInsert(p, exec, front, results, id, x);
      UpdatesCommute(Credit(p, exec, front, results), id, x, last, exec(p.gate[last]));
    }
  }

  lemma WithoutEarlier<T>(s: seq<T>, i: nat)
    requires i < |s| - 1
    ensures Without(s, i)[..|s| - 2] == Without(s[..|s| - 1], i) && Without(s, i)[|s| - 2] == s[|s| - 1]
  {
  }

  /** Settling a running gate turns its credit into a result and changes nothing else. */
  lemma {:induction false} CreditSettles(p: Plan, exec: Executor, running: seq<string>, results: Results, i: nat)
    requires i < |running| && forall k | 0 <= k < |running| ::
              running[k] in p.gate && (k != i ==> running[k] != running[i])
    ensures
      Credit(p, exec, Without(running, i), results[running[i] := exec(p.gate[running[i]])])
          == Credit(p, exec, running, results)
  {
    var n, id := |running| - 1, running[i];
    var front := running[..n];
    if i == n {
      assert Without(running, i) == front;
      CreditInsert(p, exec, front, results, id, exec(p.gate[id]));
    } else {
      CreditSettles(p, exec, front, results, i);
      WithoutEarlier(running, i);
    }
  }

  /** A gate ready among the real states is ready among the credited ones. */
  lemma CreditedReady(p: Plan, max: nat, exec: Executor, s: Sched, id: string)
    requires ResultsRecorded(p, s.states, s.results) && PoolIsRunning(p, max, s.states, s.running)
              && Ready(p, id, s.states)
    ensures Ready(p, id, StatesOf(p, Credit(p, exec, s.running, s.results)))
  {
    var credited := StatesOf(p, Credit(p, exec, s.running, s.results));
    forall x | GateSettled(s.states, x) ensures Is(credited, x, s.states[x]) {
      CreditLookup(p, exec, s.running, s.results, x);
    }
    CreditLookup(p, exec, s.running, s.results, id);
  }

  /** With nothing running, the states are those of the recorded results. */
  lemma AtRest(p: Plan, max: nat, s: Sched)
    requires ResultsRecorded(p, s.states, s.results) && PoolIsRunning(p, max, s.states, s.running) && s.running == []
    ensures StatesOf(p, s.results) == s.states
  {
    forall id | id in s.states ensures s.states[id] != Running {
      assert id !in s.running;
    }
    EqualMaps(StatesOf(p, s.results), s.states);
  }

  // What each kind of event does to the bookkeeping, from the facts it needs.

  lemma StartKeepsRecorded(p: Plan, states: States, results: Results, id: string)
    requires ResultsRecorded(p, states, results) && Is(states, id, Pending)
    ensures ResultsRecorded(p, states[id := Running], results)
  {
  }

  lemma SettleKeepsRecorded(p: Plan, states: States, results: Results, id: string, result: GateResult)
    requires ResultsRecorded(p, states, results) && id in states
    ensures ResultsRecorded(p, states[id := Settled(result.status)], results[id := result])
  {
  }

  lemma PredecessorsStayReady(g: Gate, states: States, id: string, next: GateState)
    requires PredecessorsReady(g, states) && !GateSettled(states, id)
    ensures PredecessorsReady(g, states[id := next])
  {
    assert forall x | GateSettled(states, x) :: Is(states[id := next], x, states[x]);
  }

  lemma StartKeepsPool(p: Plan, max: nat, states: States, running: seq<string>, id: string)
    requires PoolIsRunning(p, max, states, running) && Ready(p, id, states) && |running| < max
    ensures PoolIsRunning(p, max, states[id := Running], running + [id])
  {
    var states', running' := states[id := Running], running + [id];
    forall k | 0 <= k < |running'| ensures PredecessorsReady(p.gate[running'[k]], states') {
      PredecessorsStayReady(p.gate[running'[k]], states, id, Running);
    }
    forall x {:trigger x in running'} | Is(states', x, Running) ensures x in running' {
      assert x != id ==> x in running;
    }
  }

  lemma SkipKeepsPool(p: Plan, max: nat, states: States, id: string, status: Status)
    requires PoolIsRunning(p, max, states, [])
    ensures PoolIsRunning(p, max, states[id := Settled(status)], [])
  {
    forall x {:trigger x in []} | Is(states[id := Settled(status)], x, Running) ensures x in [] {
      assert x in [];
    }
  }

  lemma SettleKeepsPool(p: Plan, max: nat, states: States, running: seq<string>, i: nat, status: Status)
    requires PoolIsRunning(p, max, states, running) && i < |running|
    ensures PoolIsRunning(p, max, states[running[i] := Settled(status)], Without(running, i))
  {
    var id, rest := running[i], Without(running, i);
    var states' := states[id := Settled(status)];
    forall k | 0 <= k < |rest|
      ensures rest[k] in p.gate && rest[k] != id && Is(states', rest[k], Running)
                && PredecessorsReady(p.gate[rest[k]], states')
    {
      assert rest[k] == running[if k < i then k else k + 1];
      PredecessorsStayReady(p.gate[rest[k]], states, id, Settled(status));
    }
    forall x {:trigger x in rest} | Is(states', x, Running) ensures x in rest {
      assert x in running;
      var k :| 0 <= k < |running| && running[k] == x;
      assert rest[if k < i then k else k - 1] == x;
    }
  }

  lemma ResultIsObserved(results: Results, observed: seq<Observation>, id: string, result: GateResult)
    requires ObservedOnce(results, observed) && id !in results
    ensures ObservedOnce(results[id := result], observed + [Observation(id, result)])
  {
    assert results[id := result].Keys == results.Keys + {id};
  }

  lemma StartCredits(p: Plan, max: nat, exec: Executor, s: Sched, id: string)
    requires Covers(p) && ResultsRecorded(p, s.states, s.results) && PoolIsRunning(p, max, s.states, s.running)
    requires Justified(p, exec, Credit(p, exec, s.running, s.results)) && Ready(p, id, s.states)
    ensures Justified(p, exec, Credit(p, exec, s.running + [id], s.results))
    ensures EndPoint(p, exec, s.running + [id], s.results) == EndPoint(p, exec, s.running, s.results)
  {
    assert (s.running + [id])[..|s.running|] == s.running;
    CreditedReady(p, max, exec, s, id);
    SettlingKeepsJustified(p, exec, Credit(p, exec, s.running, s.results), id, exec(p.gate[id]));
    ReadyGatesCommute(p, exec, Credit(p, exec, s.running, s.results), id);
  }

  lemma SkipCredits(p: Plan, max: nat, exec: Executor, s: Sched, id: string)
    requires ResultsRecorded(p, s.states, s.results) && PoolIsRunning(p, max, s.states, s.running) && s.running == []
    requires Justified(p, exec, s.results)
    requires FirstReady(p, p.order, s.states).None? && FirstBlocked(p, p.order, s.states) == Some(id)
    ensures Justified(p, exec, s.results[id := SkipResult(p.gate[id], s.states)])
    ensures Reference(p, exec, s.results[id := SkipResult(p.gate[id], s.states)]) == Reference(p, exec, s.results)
  {
    AtRest(p, max, s);
    SkipIsReferenceStep(p, exec, s.results, id);
    SettlingKeepsJustified(p, exec, s.results, id, SkipResult(p.gate[id], s.states));
  }

  lemma SkipIsReferenceStep(p: Plan, exec: Executor, r: Results, id: string)
    requires FirstReady(p, p.order, StatesOf(p, r)).None? && FirstBlocked(p, p.order, StatesOf(p, r)) == Some(id)
    ensures Reference(p, exec, r) == Reference(p, exec, r[id := SkipResult(p.gate[id], StatesOf(p, r))])
  {
  }

  lemma StartKeepsInv(p: Plan, max: nat, exec: Executor, s: Sched, id: string)
    requires Covers(p) && Inv(p, max, exec, s) && Ready(p, id, s.states) && |s.running| < max
    ensures Inv(p, max, exec, s.(states := s.states[id := Running], running := s.running + [id]))
    ensures EndPoint(p, exec, s.running + [id], s.results) == EndPoint(p, exec, s.running, s.results)
  {
    StartKeepsRecorded(p, s.states, s.results, id);
    StartKeepsPool(p, max, s.states, s.running, id);
    StartCredits(p, max, exec, s, id);
  }

  lemma SettleKeepsInv(p: Plan, max: nat, exec: Executor, s: Sched, i: nat)
    requires Inv(p, max, exec, s) && i < |s.running|
    ensures
      var s' := Record(s, s.running[i], exec(p.gate[s.running[i]]), Without(s.running, i));
      Inv(p, max, exec, s') && EndPoint(p, exec, s'.running, s'.results) == EndPoint(p, exec, s.running, s.results)
  {
    var id, result := s.running[i], exec(p.gate[s.running[i]]);
    CreditSettles(p, exec, s.running, s.results, i);
    SettleKeepsRecorded(p, s.states, s.results, id, result);
    SettleKeepsPool(p, max, s.states, s.running, i, result.status);
    ResultIsObserved(s.results, s.observed, id, result);
  }

  lemma SkipKeepsInv(p: Plan, max: nat, exec: Executor, s: Sched, id: string)
    requires Inv(p, max, exec, s) && s.running == []
    requires FirstReady(p, p.order, s.states).None? && FirstBlocked(p, p.order, s.states) == Some(id)
    ensures
      var s' := Record(s, id, SkipResult(p.gate[id], s.states), []);
      Inv(p, max, exec, s') && EndPoint(p, exec, s'.running, s'.results) == EndPoint(p, exec, s.running, s.results)
  {
    var result := SkipResult(p.gate[id], s.states);
    SettleKeepsRecorded(p, s.states, s.results, id, result);
    SkipKeepsPool(p, max, s.states, id, Skipped);
    SkipCredits(p, max, exec, s, id);
    ResultIsObserved(s.results, s.observed, id, result);
  }

  /** Every enabled event keeps the invariant and the place where the reference ends up. */
  lemma StepKeepsInv(p: Plan, max: nat, exec: Executor, s: Sched, e: Event)
    requires Covers(p) && Inv(p, max, exec, s) && Enabled(p, max, s, e)
    ensures
      var s' := Apply(p, exec, s, e);
      Inv(p, max, exec, s') && EndPoint(p, exec, s'.running, s'.results) == EndPoint(p, exec, s.running, s.results)
  {
    match e
    case Start(id) => StartKeepsInv(p, max, exec, s, id);
    case Settle(i) => SettleKeepsInv(p, max, exec, s, i);
    case Skip(id) => SkipKeepsInv(p, max, exec, s, id);
  }

  // ---- Whole runs --------------------------------------------------------------------------------------------------

  function PendingIds(states: States): set<string> {
    set id | id in states && states[id] == Pending
  }

  /** The work a state still holds: a start and a settlement for a pending gate, a settlement for a running one. */
  function Work(s: Sched): nat {
    2 * |PendingIds(s.states)| + |s.running|
  }

  lemma PendingDrops(states: States, id: string, next: GateState)
    requires Is(states, id, Pending) && next != Pending
    ensures |PendingIds(states[id := next])| == |PendingIds(states)| - 1
  {
    assert PendingIds(states[id := next]) == PendingIds(states) - {id};
  }

  lemma StepWorks(p: Plan, max: nat, exec: Executor, s: Sched, e: Event)
    requires PoolIsRunning(p, max, s.states, s.running) && Enabled(p, max, s, e)
    ensures Work(Apply(p, exec, s, e)) < Work(s)
  {
    match e
    case Start(id) => PendingDrops(s.states, id, Running);
    case Settle(i) => assert PendingIds(Apply(p, exec, s, e).states) == PendingIds(s.states);
    case Skip(id) => PendingDrops(s.states, id, Settled(Skipped));
  }

  /** Every reachable state keeps the invariant and the reference's end point, after at most two events a gate. */
  lemma {:induction false} ReachableStates(p: Plan, max: nat, exec: Executor, log: seq<Event>)
    requires Covers(p) && Run(p, max, exec, log).Some?
    ensures
      var s := Run(p, max, exec, log).value;
      && Inv(p, max, exec, s)
      && EndPoint(p, exec, s.running, s.results) == Reference(p, exec, map[])
      && |log| + Work(s) <= 2 * |p.gate|
  {
    if log == [] {
      assert PendingIds(Initial(p).states) == p.gate.Keys;
    } else {
      var front, e := log[..|log| - 1], log[|log| - 1];
      ReachableStates(p, max, exec, front);
      StepKeepsInv(p, max, exec, Run(p, max, exec, front).value, e);
      StepWorks(p, max, exec, Run(p, max, exec, front).value, e);
    }
  }

  lemma CompleteIsAtRest(p: Plan, max: nat, s: Sched)
    requires ResultsRecorded(p, s.states, s.results) && PoolIsRunning(p, max, s.states, s.running) && Complete(s)
    ensures s.running == [] && s.results.Keys == p.gate.Keys
  {
    if s.running != [] {
      RunningIsIncomplete(p, max, s);
    }
  }

  lemma RunningIsIncomplete(p: Plan, max: nat, s: Sched)
    requires PoolIsRunning(p, max, s.states, s.running) && s.running != []
    ensures !Complete(s)
  {
    assert Is(s.states, s.running[0], Running);
  }

  lemma SettledIsFinal(p: Plan, exec: Executor, r: Results)
    requires p.gate.Keys <= r.Keys
    ensures Reference(p, exec, r) == r
  {
  }

  /**
   Schedule independence. Whatever the bound and whichever gate settled first at each wait, a completed run holds the
   reference's results, skip messages included, and their statuses are the recursive outcomes.
   */
  lemma ScheduleIndependence(p: Plan, max: nat, exec: Executor, log: seq<Event>)
    requires ValidPlan(p) && Run(p, max, exec, log).Some? && Complete(Run(p, max, exec, log).value)
    ensures Run(p, max, exec, log).value.results == Reference(p, exec, map[])
    ensures Outcomes(p, exec, Statuses(Run(p, max, exec, log).value.results))
  {
    var s := Run(p, max, exec, log).value;
    ReachableStates(p, max, exec, log);
    CompleteIsAtRest(p, max, s);
    SettledIsFinal(p, exec, s.results);
    ReferenceMeetsOutcomes(p, exec, map[]);
  }

  /** Two completed runs of one graph agree on every result, under any two bounds and any two settle orders. */
  lemma RunsAgree(p: Plan, exec: Executor, max1: nat, log1: seq<Event>, max2: nat, log2: seq<Event>)
    requires ValidPlan(p)
    requires Run(p, max1, exec, log1).Some? && Complete(Run(p, max1, exec, log1).value)
    requires Run(p, max2, exec, log2).Some? && Complete(Run(p, max2, exec, log2).value)
    ensures Run(p, max1, exec, log1).value.results == Run(p, max2, exec, log2).value.results
  {
    ScheduleIndependence(p, max1, exec, log1);
    ScheduleIndependence(p, max2, exec, log2);
  }

  /**
   Deadlock freedom: a reachable state that is not complete has an enabled event, so the stall error is never thrown.
   */
  lemma NeverStuck(p: Plan, max: nat, exec: Executor, log: seq<Event>) returns (e: Event)
    requires ValidPlan(p) && max >= 1
    requires Run(p, max, exec, log).Some? && !Complete(Run(p, max, exec, log).value)
    ensures Enabled(p, max, Run(p, max, exec, log).value, e)
  {
    var s := Run(p, max, exec, log).value;
    ReachableStates(p, max, exec, log);
    e := EnabledEvent(p, max, s);
  }

  lemma EnabledEvent(p: Plan, max: nat, s: Sched) returns (e: Event)
    requires ValidPlan(p) && max >= 1 && !Complete(s)
    requires ResultsRecorded(p, s.states, s.results) && PoolIsRunning(p, max, s.states, s.running)
    ensures Enabled(p, max, s, e)
  {
    var ready := FirstReady(p, p.order, s.states);
    if |s.running| < max && ready.Some? {
      e := Start(ready.value);
    } else if |s.running| > 0 {
      e := Settle(0);
    } else {
      AtRest(p, max, s);
      var id :| id in s.states && !s.states[id].Settled?;
      assert id in p.gate.Keys - s.results.Keys;
      NoStall(p, s.results);
      e := Skip(FirstBlocked(p, p.order, s.states).value);
    }
  }

  /** Each step of a run was enabled in the state before it, and that state keeps the invariant. */
  lemma {:induction false} EveryStep(p: Plan, max: nat, exec: Executor, log: seq<Event>, k: nat)
    requires Covers(p) && Run(p, max, exec, log).Some? && k < |log|
    ensures Run(p, max, exec, log[..k]).Some?
    ensures Enabled(p, max, Run(p, max, exec, log[..k]).value, log[k])
    ensures Inv(p, max, exec, Run(p, max, exec, log[..k]).value)
  {
    var front := log[..|log| - 1];
    if k < |front| {
      EveryStep(p, max, exec, front, k);
      assert front[..k] == log[..k];
    } else {
      ReachableStates(p, max, exec, front);
    }
  }

  // ---- What the events of a run waited for -------------------------------------------------------------------------

  /** Some need has not passed, or some `after` predecessor is still to settle. */
  ghost predicate Waits(g: Gate, states: States) {
    || (exists n :: n in g.needs && (n in states ==> states[n] != Settled(Passed)))
    || (exists a :: a in g.after && (a in states ==> states[a] == Pending || states[a] == Running))
  }

  ghost predicate PendingGate(p: Plan, states: States, id: string) {
    id in p.gate && id in states && states[id] == Pending
  }

  ghost predicate HasFailedNeed(g: Gate, states: States) {
    exists n :: n in g.needs && n in states && (states[n] == Settled(Failed) || states[n] == Settled(Skipped))
  }

  ghost predicate AllPendingWait(p: Plan, states: States) {
    forall id | PendingGate(p, states, id) :: Waits(p.gate[id], states)
  }

  lemma ReadyOrWaiting(p: Plan, states: States, id: string)
    requires PendingGate(p, states, id)
    ensures Ready(p, id, states) <==> !Waits(p.gate[id], states)
    ensures Blocked(p, id, states) <==> HasFailedNeed(p.gate[id], states)
  {
    var g := p.gate[id];
    if n :| n in g.needs && !Is(states, n, Settled(Passed)) {
      assert Waits(g, states);
    } else if a :| a in g.after && !GateSettled(states, a) {
      assert Waits(g, states);
    }
    if n :| n in g.needs && GateFailed(states, n) {
      assert HasFailedNeed(g, states);
    }
    if n :| n in g.needs && n in states && (states[n] == Settled(Failed) || states[n] == Settled(Skipped)) {
      assert GateFailed(states, n);
    }
  }

  lemma NoneReadyMeansAllWait(p: Plan, states: States)
    requires Covers(p) && FirstReady(p, p.order, states).None?
    ensures AllPendingWait(p, states)
  {
    forall id | PendingGate(p, states, id) ensures Waits(p.gate[id], states) {
      ReadyOrWaiting(p, states, id);
      assert id in p.order;
    }
  }

  /**
   Why each event of a run happened when it did. A gate starts while there is room, with every need passed and every
   `after` predecessor settled, before any later gate of the list that could start. A wait ends with the pool full or
   with all pending gates waiting. A gate is skipped when nothing runs and all pending gates wait, and it is the first
   of the list with a failed need.
   */
  lemma EventsInTheirTime(p: Plan, max: nat, exec: Executor, log: seq<Event>, k: nat) returns (i: nat)
    requires Covers(p) && Run(p, max, exec, log).Some? && k < |log|
    ensures Run(p, max, exec, log[..k]).Some?
    ensures
      var s := Run(p, max, exec, log[..k]).value;
      match log[k]
      case Start(id) =>
        && |s.running| < max && i < |p.order| && p.order[i] == id && PendingGate(p, s.states, id)
        && !Waits(p.gate[id], s.states)
        && forall j | 0 <= j < i && PendingGate(p, s.states, p.order[j]) :: Waits(p.gate[p.order[j]], s.states)
      case Settle(slot) => slot < |s.running| && (|s.running| == max || AllPendingWait(p, s.states))
      case Skip(id) =>
        && s.running == [] && AllPendingWait(p, s.states)
        && i < |p.order| && p.order[i] == id && PendingGate(p, s.states, id) && HasFailedNeed(p.gate[id], s.states)
        && forall j | 0 <= j < i && PendingGate(p, s.states, p.order[j]) ::
             !HasFailedNeed(p.gate[p.order[j]], s.states)
  {
    hide Waits, HasFailedNeed, Ready, Blocked;
    EveryStep(p, max, exec, log, k);
    var s := Run(p, max, exec, log[..k]).value;
    forall id | PendingGate(p, s.states, id)
      ensures Ready(p, id, s.states) <==> !Waits(p.gate[id], s.states)
      ensures Blocked(p, id, s.states) <==> HasFailedNeed(p.gate[id], s.states)
    {
      ReadyOrWaiting(p, s.states, id);
    }
    if FirstReady(p, p.order, s.states).None? {
      NoneReadyMeansAllWait(p, s.states);
    }
    match log[k]
    case Start(id) =>
      i := FirstReadyIsFirst(p, p.order, s.states);
      LiveIsPending(p, s.states, id);
    case Settle(slot) => i := 0;
    case Skip(id) =>
      i := FirstBlockedIsFirst(p, p.order, s.states);
      LiveIsPending(p, s.states, id);
  }

  /** The result of a skipped gate: no exit code, and the failed needs by name. */
  ghost predicate SkippedFor(g: Gate, states: States, result: GateResult) {
    && result.gate == g && result.status == Skipped && result.exitCode == None
    && result.error == "dependency failed or skipped: " + Strings.JoinWith(FailedNeeds(g.needs, states), ", ")
  }

  /** One gate settles with a result and is observed; the other gates keep their states and results. */
  ghost predicate Settles(s: Sched, s': Sched, id: string, result: GateResult) {
    && s'.results == s.results[id := result] && s'.states == s.states[id := Settled(result.status)]
    && s'.observed == s.observed + [Observation(id, result)]
  }

  /** What an event records in the state before it. */
  ghost predicate Records(p: Plan, exec: Executor, s: Sched, e: Event, s': Sched) {
    match e
    case Start(id) =>
      && s'.running == s.running + [id] && s'.states == s.states[id := Running]
      && s'.results == s.results && s'.observed == s.observed
    case Settle(slot) =>
      && slot < |s.running| && s.running[slot] in p.gate
      && Settles(s, s', s.running[slot], exec(p.gate[s.running[slot]]))
      && s'.running == s.running[..slot] + s.running[slot + 1..]
    case Skip(id) =>
      && id in p.gate && s'.running == s.running
      && exists result :: Settles(s, s', id, result) && SkippedFor(p.gate[id], s.states, result)
  }

  lemma SkipIsFor(g: Gate, states: States)
    ensures SkippedFor(g, states, SkipResult(g, states))
  {}

  lemma ApplyRecords(p: Plan, max: nat, exec: Executor, s: Sched, e: Event)
    requires Enabled(p, max, s, e)
    ensures Records(p, exec, s, e, Apply(p, exec, s, e))
  {
    hide SkipResult, SkippedFor, FirstReady, FirstBlocked;
    if e.Skip? {
      SkipIsFor(p.gate[e.id], s.states);
      assert Settles(s, Apply(p, exec, s, e), e.id, SkipResult(p.gate[e.id], s.states)) by {
        SkipIsSkipped(p.gate[e.id], s.states);
      }
    }
  }

  lemma SkipIsSkipped(g: Gate, states: States)
    ensures SkipResult(g, states).status == Skipped
  {}

  /**
   What each event of a run records: a start that the gate runs; a settlement the executor's result of the gate taken
   out of the pool; a skip a result that names the failed needs.
   */
  lemma EventsRecord(p: Plan, max: nat, exec: Executor, log: seq<Event>, k: nat)
    requires Covers(p) && Run(p, max, exec, log).Some? && k < |log|
    ensures Run(p, max, exec, log[..k]).Some? && Run(p, max, exec, log[..k + 1]).Some?
    ensures Records(p, exec, Run(p, max, exec, log[..k]).value, log[k], Run(p, max, exec, log[..k + 1]).value)
  {
    hide Records, Enabled, Apply, Inv;
    EveryStep(p, max, exec, log, k);
    assert log[..k + 1][..k] == log[..k];
    ApplyRecords(p, max, exec, Run(p, max, exec, log[..k]).value, log[k]);
  }

  lemma LiveIsPending(p: Plan, states: States, id: string)
    ensures Ready(p, id, states) || Blocked(p, id, states) ==> PendingGate(p, states, id)
  {}

  /** Before a gate starts, each of its needs was observed to pass, and each `after` predecessor to settle. */
  lemma StartsAreOrdered(p: Plan, max: nat, exec: Executor, log: seq<Event>, k: nat, id: string)
    requires Covers(p) && Run(p, max, exec, log).Some? && k < |log| && log[k] == Start(id)
    ensures Run(p, max, exec, log[..k]).Some? && id in p.gate
    ensures
      var s := Run(p, max, exec, log[..k]).value;
      && (forall n | n in p.gate[id].needs ::
            n in s.results && Observation(n, s.results[n]) in s.observed && s.results[n].status == Passed
            && n in s.states && s.states[n] == Settled(Passed))
      && (forall a | a in p.gate[id].after ::
            a in s.results && Observation(a, s.results[a]) in s.observed && a in s.states && s.states[a].Settled?)
  {
    EveryStep(p, max, exec, log, k);
    var i := EventsInTheirTime(p, max, exec, log, k);
    var s, g := Run(p, max, exec, log[..k]).value, p.gate[id];
    forall n | n in g.needs || n in g.after
      ensures n in s.results && Observation(n, s.results[n]) in s.observed
      ensures n in s.states && s.states[n] == Settled(s.results[n].status)
      ensures n in g.needs ==> s.states[n] == Settled(Passed)
    {
      SettledBefore(p, max, exec, s, g, n);
    }
  }

  lemma SettledBefore(p: Plan, max: nat, exec: Executor, s: Sched, g: Gate, n: string)
    requires Inv(p, max, exec, s) && !Waits(g, s.states) && (n in g.needs || n in g.after)
    ensures n in s.results && Observation(n, s.results[n]) in s.observed
    ensures n in s.states && s.states[n] == Settled(s.results[n].status)
    ensures n in g.needs ==> s.states[n] == Settled(Passed)
  {
    hide Justified, PoolIsRunning;
    if n in s.results {
      EveryResultObserved(s.observed, s.results, n);
    }
  }

  predicate Started(log: seq<Event>, id: string) {
    exists k :: 0 <= k < |log| && log[k] == Start(id)
  }

  predicate NeedsPassed(p: Plan, states: States, id: string)
    requires id in p.gate
  {
    forall n | n in p.gate[id].needs :: Is(states, n, Settled(Passed))
  }

  predicate NeedFailed(p: Plan, states: States, id: string)
    requires id in p.gate
  {
    exists n :: n in p.gate[id].needs && GateFailed(states, n)
  }

  /**
   A started gate is no longer pending and had every need passed; a gate settled without a start had a failed need.
   */
  predicate StartExplained(p: Plan, log: seq<Event>, states: States, id: string)
    requires id in p.gate
  {
    if Started(log, id) then !Is(states, id, Pending) && NeedsPassed(p, states, id)
    else Is(states, id, Pending) || (GateSettled(states, id) && NeedFailed(p, states, id))
  }

  lemma {:induction false} ReachableStarts(p: Plan, max: nat, exec: Executor, log: seq<Event>, id: string)
    requires Covers(p) && Run(p, max, exec, log).Some? && id in p.gate
    ensures StartExplained(p, log, Run(p, max, exec, log).value.states, id)
  {
    if log != [] {
      var front, e := log[..|log| - 1], log[|log| - 1];
      ReachableStarts(p, max, exec, front, id);
      ReachableStates(p, max, exec, front);
      StepExplainsStart(p, max, exec, front, e, Run(p, max, exec, front).value, id);
      assert front + [e] == log;
    }
  }

  lemma StepExplainsStart(p: Plan, max: nat, exec: Executor, log: seq<Event>, e: Event, s: Sched, id: string)
    requires PoolIsRunning(p, max, s.states, s.running) && Enabled(p, max, s, e) && id in p.gate
    requires StartExplained(p, log, s.states, id)
    ensures StartExplained(p, log + [e], Apply(p, exec, s, e).states, id)
  {
    var states' := Apply(p, exec, s, e).states;
    StartedGrows(log, e, id);
    assert forall x | GateSettled(s.states, x) :: Is(states', x, s.states[x]);
    assert NeedsPassed(p, s.states, id) ==> NeedsPassed(p, states', id);
    if NeedFailed(p, s.states, id) {
      var n :| n in p.gate[id].needs && GateFailed(s.states, n);
      assert GateFailed(states', n);
    }
  }

  lemma StartedGrows(log: seq<Event>, e: Event, id: string)
    ensures Started(log + [e], id) <==> Started(log, id) || e == Start(id)
  {
    var longer := log + [e];
    if Started(log, id) {
      var k :| 0 <= k < |log| && log[k] == Start(id);
      assert longer[k] == Start(id);
    }
    if e == Start(id) {
      assert longer[|log|] == Start(id);
    }
  }

  /** No gate is started twice in a run. */
  lemma StartedAtMostOnce(p: Plan, max: nat, exec: Executor, log: seq<Event>, i: nat, j: nat)
    requires Covers(p) && Run(p, max, exec, log).Some?
    requires i < j < |log| && log[i].Start? && log[j].Start?
    ensures log[i].id != log[j].id
  {
    EveryStep(p, max, exec, log, j);
    var s := Run(p, max, exec, log[..j]).value;
    assert Ready(p, log[j].id, s.states);
    ReachableStarts(p, max, exec, log[..j], log[j].id);
    assert log[..j][i] == log[i];
  }

  /** A completed run has executed exactly the gates all of whose needs passed, and observed every gate exactly once. */
  lemma ExecutedAndObserved(p: Plan, max: nat, exec: Executor, log: seq<Event>, id: string)
    requires Covers(p) && Run(p, max, exec, log).Some? && Complete(Run(p, max, exec, log).value) && id in p.gate
    ensures
      var s := Run(p, max, exec, log).value;
      && s.results.Keys == p.gate.Keys
      && ObservedOnce(s.results, s.observed)
      && Observation(id, s.results[id]) in s.observed
      && (Started(log, id) <==> AllPassed(p.gate[id].needs, Statuses(s.results)))
  {
    var s := Run(p, max, exec, log).value;
    ReachableStates(p, max, exec, log);
    ReachableStarts(p, max, exec, log, id);
    CompleteIsAtRest(p, max, s);
    EveryResultObserved(s.observed, s.results, id);
    PassedInResults(p, s, id);
  }

  lemma PassedInResults(p: Plan, s: Sched, id: string)
    requires ResultsRecorded(p, s.states, s.results) && s.results.Keys == p.gate.Keys && id in p.gate
    ensures NeedsPassed(p, s.states, id) <==> AllPassed(p.gate[id].needs, Statuses(s.results))
    ensures NeedFailed(p, s.states, id) ==> !NeedsPassed(p, s.states, id)
  {
    assert forall n :: Is(s.states, n, Settled(Passed)) <==> Passes(Statuses(s.results), n);
    assert forall n :: GateFailed(s.states, n) ==> !Is(s.states, n, Settled(Passed));
  }

  /** As many observations as results, without repeats, cover the results. */
  lemma {:induction false} EveryResultObserved(observed: seq<Observation>, results: Results, id: string)
    requires ObservedOnce(results, observed) && id in results
    ensures Observation(id, results[id]) in observed
  {
    assert results.Keys != {};
    var last, front := observed[|observed| - 1], observed[..|observed| - 1];
    if id != last.id {
      DropLastObservation(observed, results);
      EveryResultObserved(front, results - {last.id}, id);
      assert observed == front + [last];
    }
  }

  lemma DropLastObservation(observed: seq<Observation>, results: Results)
    requires ObservedOnce(results, observed) && observed != []
    ensures ObservedOnce(results - {observed[|observed| - 1].id}, observed[..|observed| - 1])
  {
    var id := observed[|observed| - 1].id;
    assert (results - {id}).Keys == results.Keys - {id};
  }

  // ---- The scheduler itself ----------------------------------------------------------------------------------------

  const MAX_SAFE_INTEGER := 9007199254740991

  datatype RunError =
    | InvalidGraph(error: GraphError)
    | InvalidConcurrency(maxActive: int)
    | Stalled
    | MissingResult(id: string)

  /** The results of a completed run, in the order of the gate list. */
  function InInputOrder(order: seq<string>, results: Results): (r: Result<seq<GateResult>, RunError>)
    ensures r.Ok? <==> forall i | 0 <= i < |order| :: order[i] in results
    ensures r.Ok? ==> |r.value| == |order| && forall i | 0 <= i < |order| :: r.value[i] == results[order[i]]
  {
    if order == [] then Ok([])
    else if order[0] !in results then Err(MissingResult(order[0]))
    else
      match InInputOrder(order[1..], results)
      case Ok(rest) => Ok([results[order[0]]] + rest)
      case Err(e) => Err(e)
  }

  /** One event of a run that has not gone wrong so far: the state moves as `Apply` says and holds less work. */
  lemma TakeStep(p: Plan, max: nat, exec: Executor, log: seq<Event>, e: Event)
    requires Covers(p) && Run(p, max, exec, log).Some? && Enabled(p, max, Run(p, max, exec, log).value, e)
    ensures Run(p, max, exec, log + [e]) == Some(Apply(p, exec, Run(p, max, exec, log).value, e))
    ensures Work(Apply(p, exec, Run(p, max, exec, log).value, e)) < Work(Run(p, max, exec, log).value)
  {
    ReachableStates(p, max, exec, log);
    assert (log + [e])[..|log|] == log;
    StepWorks(p, max, exec, Run(p, max, exec, log).value, e);
  }

  lemma AnyRunningMaySettle(p: Plan, max: nat, exec: Executor, log: seq<Event>, slot: nat)
    requires Covers(p) && Run(p, max, exec, log).Some?
    requires
      var s := Run(p, max, exec, log).value;
      slot < |s.running| && (|s.running| == max || FirstReady(p, p.order, s.states).None?)
    ensures Enabled(p, max, Run(p, max, exec, log).value, Settle(slot))
  {
    ReachableStates(p, max, exec, log);
  }

  /** The later log adds nothing but starts. */
  ghost predicate StartsOnly(before: seq<Event>, after: seq<Event>) {
    before <= after && forall k | |before| <= k < |after| :: after[k].Start?
  }

  lemma OneMoreStart(before: seq<Event>, after: seq<Event>, id: string)
    ensures StartsOnly(before, before)
    ensures StartsOnly(before, after) ==> StartsOnly(before, after + [Start(id)])
  {}

  /** The mutable state of one aggregate run; the ghost `log` records the events it has gone through. */
  class GateRun {
    const p: Plan
    const maxActive: nat
    const exec: Executor
    var states: States
    var results: Results
    var running: seq<string>
    var observed: seq<Observation>
    ghost var log: seq<Event>

    function State(): Sched
      reads this
    {
      Sched(states, results, running, observed)
    }

    ghost predicate Valid()
      reads this
    {
      ValidPlan(p) && maxActive >= 1 && Run(p, maxActive, exec, log) == Some(State())
    }

    constructor (p: Plan, maxActive: nat, exec: Executor)
      requires ValidPlan(p) && maxActive >= 1
      ensures Valid() && log == []
      ensures this.p == p && this.maxActive == maxActive && this.exec == exec
    {
      this.p, this.maxActive, this.exec := p, maxActive, exec;
      states, results, running, observed := map id | id in p.gate :: Pending, map[], [], [];
      log := [];
    }

    /** Start ready gates in list order until the pool is full or nothing is ready. */
    method StartReady() returns (madeProgress: bool)
      requires Valid()
      modifies this
      ensures Valid()
      ensures |running| == maxActive || FirstReady(p, p.order, states).None?
      ensures StartsOnly(old(log), log)
      ensures if madeProgress then running != [] && Work(State()) < old(Work(State())) else State() == old(State())
    {
      hide StartsOnly, FirstReady;
      madeProgress := false;
      OneMoreStart(log, log, "");
      ReachableStates(p, maxActive, exec, log);
      while |running| < maxActive
        invariant Valid() && |running| <= maxActive
        invariant StartsOnly(old(log), log)
        invariant if madeProgress then running != [] && Work(State()) < old(Work(State())) else State() == old(State())
        decreases Work(State())
      {
        var ready := FirstReady(p, p.order, states);
        if ready.None? {
          break;
        }
        OneMoreStart(old(log), log, ready.value);
        StartOne(ready.value);
        madeProgress := true;
      }
    }

    method StartOne(id: string)
      requires Valid() && |running| < maxActive && FirstReady(p, p.order, states) == Some(id)
      modifies this
      ensures Valid() && log == old(log) + [Start(id)]
      ensures running == old(running) + [id] && Work(State()) < old(Work(State()))
    {
      TakeStep(p, maxActive, exec, log, Start(id));
      log := log + [Start(id)];
      states := states[id := Running];
      running := running + [id];
    }

    method RecordResult(id: string, result: GateResult)
      modifies `states, `results, `observed
      ensures State() == Record(old(State()), id, result, running)
    {
      states := states[id := Settled(result.status)];
      results := results[id := result];
      observed := observed + [Observation(id, result)];
    }

    /** Wait for any one of the running gates; exactly that one settles, with its executor's result. */
    method SettleOne()
      requires Valid() && running != []
      requires |running| == maxActive || FirstReady(p, p.order, states).None?
      modifies this
      ensures Valid() && Work(State()) < old(Work(State()))
      ensures exists slot: nat :: slot < |old(running)| && log == old(log) + [Settle(slot)]
    {
      var slot: nat :| slot < |running|;
      AnyRunningMaySettle(p, maxActive, exec, log, slot);
      TakeStep(p, maxActive, exec, log, Settle(slot));
      log := log + [Settle(slot)];
      var id := running[slot];
      running := Without(running, slot);
      RecordResult(id, exec(p.gate[id]));
    }

    /** With nothing running and nothing ready, skip the first blocked gate; false when every gate has settled. */
    method SkipBlocked() returns (skipped: bool)
      requires Valid() && running == [] && FirstReady(p, p.order, states).None?
      modifies this
      ensures Valid()
      ensures if skipped then Work(State()) < old(Work(State())) else State() == old(State()) && Complete(State())
      ensures skipped ==> FirstBlocked(p, p.order, old(states)).Some?
                          && log == old(log) + [Skip(FirstBlocked(p, p.order, old(states)).value)]
    {
      if Complete(State()) {
        return false;
      }
      var e := NeverStuck(p, maxActive, exec, log);
      var id := FirstBlocked(p, p.order, states).value;
      TakeStep(p, maxActive, exec, log, Skip(id));
      log := log + [Skip(id)];
      RecordResult(id, SkipResult(p.gate[id], states));
      skipped := true;
    }

    /** The loop of turns: start what is ready, then skip or wait. Each turn that continues leaves less work. */
    method RunToEnd()
      requires Valid()
      modifies this
      ensures Valid() && Complete(State())
    {
      while true
        invariant Valid()
        decreases Work(State())
      {
        var madeProgress := StartReady();
        if |running| == 0 {
          var skipped := SkipBlocked();
          if !skipped {
            break;
          }
        } else if !madeProgress {
          SettleOne();
        }
      }
    }
  }

  lemma EveryGateHasResult(p: Plan, max: nat, exec: Executor, log: seq<Event>)
    requires ValidPlan(p) && Run(p, max, exec, log).Some? && Complete(Run(p, max, exec, log).value)
    ensures Run(p, max, exec, log).value.results == Reference(p, exec, map[])
    ensures InInputOrder(p.order, Reference(p, exec, map[])).Ok?
  {
    ScheduleIndependence(p, max, exec, log);
    ReferenceMeetsOutcomes(p, exec, map[]);
  }

  /**
   Validate and run one aggregate. A rejected call starts and observes nothing; an accepted one ends with the
   reference's result for every gate, in input order, after a run of the transition system recorded in `log`.
   */
  method RunGates(gates: seq<Gate>, maxActive: int, exec: Executor)
    returns (outcome: Result<seq<GateResult>, RunError>, observed: seq<Observation>, ghost log: seq<Event>)
    ensures outcome.Ok? <==> ValidGraph(gates) && 1 <= maxActive <= 9007199254740991
    ensures outcome.Err? ==> observed == [] && log == []
    ensures !ValidGraph(gates) ==> outcome.Err? && outcome.error.InvalidGraph? && Explains(gates, outcome.error.error)
    ensures ValidGraph(gates) && outcome.Err? ==> outcome == Err(InvalidConcurrency(maxActive))
    ensures outcome.Ok? ==> outcome == InInputOrder(PlanOf(gates).order, Reference(PlanOf(gates), exec, map[]))
    ensures outcome.Ok? ==>
      && Run(PlanOf(gates), maxActive, exec, log).Some?
      && Complete(Run(PlanOf(gates), maxActive, exec, log).value)
      && Run(PlanOf(gates), maxActive, exec, log).value.observed == observed
  {
    var invalid := ValidateGateGraph(gates);
    if invalid.Some? {
      return Err(InvalidGraph(invalid.value)), [], [];
    }
    if maxActive < 1 || maxActive > MAX_SAFE_INTEGER {
      return Err(InvalidConcurrency(maxActive)), [], [];
    }
    PlanIsValid(gates);
    var run := new GateRun(PlanOf(gates), maxActive, exec);
    run.RunToEnd();
    EveryGateHasResult(run.p, maxActive, exec, run.log);
    outcome, observed, log := InInputOrder(run.p.order, run.results), run.observed, run.log;
  }
}
