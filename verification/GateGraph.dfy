/**
 Gates with their two kinds of predecessor edge, and the validation that runs before any gate starts:
 `needs` (the predecessor must pass) and `after` (the predecessor must settle, whatever its outcome).
 */
module GateGraph {
  import opened Wrappers
  import opened Digraph

  /** The scheduling part of a gate; absent `needs` and `after` lists are empty. */
  datatype Gate = Gate(id: string, needs: seq<string>, after: seq<string>)

  datatype GraphError =
    | NoGates
    | DuplicateGate(id: string)
    | UnknownNeed(id: string, dependency: string)
    | UnknownAfter(id: string, predecessor: string)
    | DependencyCycle(path: seq<string>)

  /** The gates by id, as a map filled in list order keeps them. */
  function ById(gates: seq<Gate>): (m: map<string, Gate>)
    ensures Keyed(m)
    ensures forall i | 0 <= i < |gates| :: gates[i].id in m
  {
    if gates == [] then map[]
    else
      var last := gates[|gates| - 1];
      ById(gates[..|gates| - 1])[last.id := last]
  }

  predicate Keyed(gate: map<string, Gate>) {
    forall id {:trigger gate[id]} | id in gate :: gate[id].id == id
  }

  /** The graph validation looks at: `needs` edges first, then `after` edges. */
  function GraphOf(gate: map<string, Gate>): (g: Graph)
    ensures g.Keys == gate.Keys
    ensures forall id | id in gate ::
              |gate[id].needs| <= |g[id]| && g[id][..|gate[id].needs|] == gate[id].needs
              && g[id][|gate[id].needs|..] == gate[id].after
  {
    map id | id in gate :: gate[id].needs + gate[id].after
  }

  ghost predicate UniqueIds(gates: seq<Gate>) {
    forall i, j | 0 <= i < j < |gates| :: gates[i].id != gates[j].id
  }

  ghost predicate AllKnown(ids: set<string>, names: seq<string>) {
    forall p {:trigger p in names} | p in names :: p in ids
  }

  ghost predicate KnownPredecessors(gate: map<string, Gate>) {
    forall id {:trigger gate[id]} | id in gate ::
        AllKnown(gate.Keys, gate[id].needs) && AllKnown(gate.Keys, gate[id].after)
  }

  /** The graphs a run may execute. */
  ghost predicate ValidGraph(gates: seq<Gate>) {
    gates != [] && UniqueIds(gates) && KnownPredecessors(ById(gates)) && Acyclic(GraphOf(ById(gates)))
  }

  /** With unique ids, looking a gate up by its id finds that gate, and the map holds nothing else. */
  lemma {:induction false} UniqueIdLookup(gates: seq<Gate>)
    requires UniqueIds(gates)
    ensures forall i | 0 <= i < |gates| :: ById(gates)[gates[i].id] == gates[i]
    ensures forall id | id in ById(gates) :: ById(gates)[id] in gates
  {
    if gates != [] {
      var front, last := gates[..|gates| - 1], gates[|gates| - 1];
      UniqueIdLookup(front);
      assert gates == front + [last];
    }
  }

  lemma KnownPredecessor(gate: map<string, Gate>, id: string, p: string)
    requires KnownPredecessors(gate) && id in gate && (p in gate[id].needs || p in gate[id].after)
    ensures p in gate && Edge(GraphOf(gate), id, p)
  {
  }

  /**
   The bookkeeping of the depth-first search: `path` is the chain of gates being visited, `active` gives each of them
   its position on the chain and nothing else, and `order` is a finishing order of the gates in `complete`.
   */
  ghost predicate Chain(g: Graph, path: seq<string>, active: map<string, nat>) {
    && (forall i | 0 <= i < |path| :: path[i] in g && path[i] in active && active[path[i]] == i)
    && (forall x | x in active :: active[x] < |path| && path[active[x]] == x)
    && (path != [] ==> Walk(g, path))
  }

  ghost predicate Finished(g: Graph, complete: set<string>, order: seq<string>) {
    && (forall x :: x in complete <==> x in order)
    && TopologicalOrder(g, order)
  }

  lemma EnterKeepsChain(g: Graph, path: seq<string>, active: map<string, nat>, id: string)
    requires Chain(g, path, active) && id in g && id !in active
    requires path != [] ==> Edge(g, path[|path| - 1], id)
    ensures Chain(g, path + [id], active[id := |path|])
  {
    if path != [] {
      WalkExtends(g, path, id);
    }
  }

  lemma LeaveKeepsChain(g: Graph, path: seq<string>, active: map<string, nat>)
    requires Chain(g, path, active) && path != []
    ensures Chain(g, path[..|path| - 1], active - {path[|path| - 1]})
    ensures active.Keys - {path[|path| - 1]} == (active - {path[|path| - 1]}).Keys
  {
    if |path| > 1 {
      WalkPrefix(g, path, |path| - 1);
    }
  }

  lemma FinishKeepsOrder(g: Graph, complete: set<string>, order: seq<string>, id: string)
    requires Finished(g, complete, order) && id in g && id !in complete
    requires SuccessorsAmong(g, id, order)
    ensures Finished(g, complete + {id}, order + [id])
  {
    var longer := order + [id];
    forall k | 0 <= k < |longer| ensures SuccessorsAmong(g, longer[k], longer[..k]) {
      assert k < |order| ==> longer[..k] == order[..k];
      assert k == |order| ==> longer[..k] == order;
    }
  }

  lemma ActiveGrows(ids: set<string>, active: map<string, nat>, id: string, at: nat)
    requires id in ids && id !in active
    ensures ids - active[id := at].Keys < ids - active.Keys
    ensures active[id := at] - {id} == active
  {
    assert id in ids - active.Keys;
  }

  /** A closed walk that passes no gate twice. */
  ghost predicate SimpleCycle(g: Graph, w: seq<string>) {
    ClosedWalk(g, w) && forall i, j | 0 <= i < j < |w| - 1 :: w[i] != w[j]
  }

  lemma ChainClosesSimply(g: Graph, path: seq<string>, active: map<string, nat>, id: string)
    requires Chain(g, path, active) && id in active && Edge(g, path[|path| - 1], id)
    ensures SimpleCycle(g, path[active[id]..] + [id])
  {
    ReturnClosesWalk(g, path, active[id], id);
    var w := path[active[id]..] + [id];
    forall i, j | 0 <= i < j < |w| - 1 ensures w[i] != w[j] {
      assert active[path[active[id] + i]] == active[id] + i && active[path[active[id] + j]] == active[id] + j;
    }
  }

  // ---- The depth-first search as a function ------------------------------------------------------------------------

  /** A visit ends with the cycle it met first, or with the gates finished by then. */
  datatype Sight = Cycle(gates: seq<string>) | Finishes(complete: set<string>)

  predicate Positions(path: seq<string>, active: map<string, nat>) {
    forall x | x in active :: active[x] < |path|
  }

  /**
   Depth first: a finished gate is passed over, one on the chain closes a cycle, a new one is put on the chain, and its
   predecessors are visited one after another, each with what the ones before it finished.
   */
  function Search(g: Graph, id: string, path: seq<string>, active: map<string, nat>, complete: set<string>): Sight
    requires Positions(path, active)
    decreases g.Keys - active.Keys, 0
  {
    if id in complete then Finishes(complete)
    else if id in active then Cycle(path[active[id]..] + [id])
    else if id !in g then Finishes(complete)
    else
      ActiveGrows(g.Keys, active, id, |path|);
      match SearchAll(g, g[id], path + [id], active[id := |path|], complete)
      case Cycle(gates) => Cycle(gates)
      case Finishes(done) => Finishes(done + {id})
  }

  function SearchAll(g: Graph, ids: seq<string>, path: seq<string>, active: map<string, nat>, complete: set<string>):
      Sight
    requires Positions(path, active)
    decreases g.Keys - active.Keys, 1, |ids|
  {
    if ids == [] then Finishes(complete)
    else
      match Search(g, ids[0], path, active, complete)
      case Cycle(gates) => Cycle(gates)
      case Finishes(done) => SearchAll(g, ids[1..], path, active, done)
  }

  /** What a method returned is what the search sees. */
  ghost predicate Sees(sight: Sight, cycle: Option<seq<string>>, complete: set<string>) {
    match sight
    case Cycle(gates) => cycle == Some(gates)
    case Finishes(done) => cycle == None && complete == done
  }

  lemma ChainHasPositions(g: Graph, path: seq<string>, active: map<string, nat>)
    requires Chain(g, path, active)
    ensures Positions(path, active)
  {}

  /** The search that looks for a dependency cycle, with the state its visits share. */
  class CycleFinder {
    const graph: Graph
    var path: seq<string>
    var active: map<string, nat>
    var complete: set<string>
    ghost var order: seq<string>

    ghost predicate Valid()
      reads this
    {
      Chain(graph, path, active) && Finished(graph, complete, order) && active.Keys !! complete
    }

    constructor (graph: Graph)
      ensures Valid() && this.graph == graph && path == [] && active == map[] && complete == {}
    {
      this.graph := graph;
      path, active, complete, order := [], map[], {}, [];
    }

    /**
     Visit one gate. A returned list is a cycle. Otherwise the chain is as it was, nothing finished is forgotten, and
     the gate is finished if it exists at all.
     */
    method Visit(id: string) returns (cycle: Option<seq<string>>)
      requires Valid()
      requires path != [] ==> Edge(graph, path[|path| - 1], id)
      modifies this
      ensures cycle.Some? ==> SimpleCycle(graph, cycle.value)
      ensures cycle.None? ==> Valid() && path == old(path) && active == old(active)
      ensures cycle.None? ==> old(complete) <= complete && (id in graph ==> id in complete)
      ensures Positions(old(path), old(active))
              && Sees(Search(graph, id, old(path), old(active), old(complete)), cycle, complete)
      decreases graph.Keys - active.Keys, 0
    {
      ChainHasPositions(graph, path, active);
      if id in complete {
        return None;
      }
      if id in active {
        ChainClosesSimply(graph, path, active, id);
        return Some(path[active[id]..] + [id]);
      }
      if id !in graph {
        return None;
      }
      hide TopologicalOrder, SimpleCycle, Walk;
      ActiveGrows(graph.Keys, active, id, |path|);
      Enter(id);
      cycle := VisitAll(graph[id]);
      if cycle.None? {
        Leave(id);
        assert path == old(path);
      }
    }

    method Enter(id: string)
      requires Valid() && id in graph && id !in active && id !in complete
      requires path != [] ==> Edge(graph, path[|path| - 1], id)
      modifies `path, `active
      ensures Valid() && path == old(path) + [id] && active == old(active)[id := old(|path|)]
    {
      EnterKeepsChain(graph, path, active, id);
      active := active[id := |path|];
      path := path + [id];
    }

    method Leave(id: string)
      requires Valid() && path != [] && path[|path| - 1] == id
      requires SuccessorsAmong(graph, id, order)
      modifies this
      ensures Valid() && path == old(path)[..|old(path)| - 1] && active == old(active) - {id}
      ensures complete == old(complete) + {id}
    {
      LeaveKeepsChain(graph, path, active);
      FinishKeepsOrder(graph, complete, order, id);
      path := path[..|path| - 1];
      active := active - {id};
      complete := complete + {id};
      order := order + [id];
    }

    /** Visit the predecessors of the gate at the end of the chain, in order. */
    method VisitAll(predecessors: seq<string>) returns (cycle: Option<seq<string>>)
      requires Valid() && path != []
      requires forall i | 0 <= i < |predecessors| :: Edge(graph, path[|path| - 1], predecessors[i])
      modifies this
      ensures cycle.Some? ==> SimpleCycle(graph, cycle.value)
      ensures cycle.None? ==> Valid() && path == old(path) && active == old(active)
      ensures cycle.None? ==> old(complete) <= complete
      ensures cycle.None? ==> forall i | 0 <= i < |predecessors| && predecessors[i] in graph :: predecessors[i] in order
      ensures Positions(old(path), old(active))
              && Sees(SearchAll(graph, predecessors, old(path), old(active), old(complete)), cycle, complete)
      decreases graph.Keys - active.Keys, 1
    {
      hide Search;
      ChainHasPositions(graph, path, active);
      for k := 0 to |predecessors|
        invariant Valid() && path == old(path) && active == old(active) && Positions(path, active)
        invariant SearchAll(graph, predecessors, old(path), old(active), old(complete))
                  == SearchAll(graph, predecessors[k..], path, active, complete)
        invariant old(complete) <= complete
        invariant forall i | 0 <= i < k && predecessors[i] in graph :: predecessors[i] in complete
      {
        assert predecessors[k..][0] == predecessors[k] && predecessors[k..][1..] == predecessors[k + 1..];
        cycle := Visit(predecessors[k]);
        if cycle.Some? {
          return;
        }
      }
      return None;
    }
  }

  function IdsOf(gates: seq<Gate>): seq<string> {
    seq(|gates|, i requires 0 <= i < |gates| => gates[i].id)
  }

  /** Exactness of the search: a reported list is a cycle, and silence means there is none. */
  method FindDependencyCycle(gates: seq<Gate>) returns (cycle: Option<seq<string>>)
    ensures cycle.Some? ==> SimpleCycle(GraphOf(ById(gates)), cycle.value)
    ensures cycle.None? <==> Acyclic(GraphOf(ById(gates)))
    ensures match SearchAll(GraphOf(ById(gates)), IdsOf(gates), [], map[], {})
            case Cycle(ids) => cycle == Some(ids)
            case Finishes(_) => cycle == None
  {
    hide Search;
    var finder := new CycleFinder(GraphOf(ById(gates)));
    for k := 0 to |gates|
      invariant finder.Valid() && finder.graph == GraphOf(ById(gates)) && finder.path == [] && fresh(finder)
      invariant forall i | 0 <= i < k :: gates[i].id in finder.complete
      invariant finder.active == map[]
      invariant SearchAll(finder.graph, IdsOf(gates), [], map[], {})
                == SearchAll(finder.graph, IdsOf(gates)[k..], [], map[], finder.complete)
    {
      assert IdsOf(gates)[k..][0] == gates[k].id && IdsOf(gates)[k..][1..] == IdsOf(gates)[k + 1..];
      cycle := finder.Visit(gates[k].id);
      if cycle.Some? {
        return cycle;
      }
    }
    forall id | id in finder.graph ensures id in finder.order {
      var i := PositionOf(gates, id);
      assert gates[i].id in finder.complete;
    }
    OrderIsAcyclic(finder.graph, finder.order);
    return None;
  }

  lemma {:induction false} PositionOf(gates: seq<Gate>, id: string) returns (i: nat)
    requires id in ById(gates)
    ensures i < |gates| && gates[i].id == id
  {
    i := |gates| - 1;
    if gates[i].id != id {
      i := PositionOf(gates[..i], id);
    }
  }

  /** What each rejection says about the gate list. */
  ghost predicate Explains(gates: seq<Gate>, e: GraphError) {
    match e
    case NoGates => gates == []
    case DuplicateGate(id) => exists k :: FirstRepeat(gates, k, id)
    case UnknownNeed(id, p) =>
      UniqueIds(gates) && exists k ::
          FirstDefect(gates, k, id) && FirstUnknown(ById(gates).Keys, gates[k].needs) == Some(p)
    case UnknownAfter(id, p) =>
      UniqueIds(gates) && exists k :: FirstDefect(gates, k, id) && AllKnown(ById(gates).Keys, gates[k].needs)
                                      && FirstUnknown(ById(gates).Keys, gates[k].after) == Some(p)
    case DependencyCycle(path) =>
      UniqueIds(gates) && KnownPredecessors(ById(gates)) && SimpleCycle(GraphOf(ById(gates)), path)
  }

  /** Gate k bears an id some gate before it bears, and the gates before it bear different ids. */
  ghost predicate FirstRepeat(gates: seq<Gate>, k: int, id: string) {
    && 0 <= k < |gates| && gates[k].id == id && (exists i :: 0 <= i < k && gates[i].id == id)
    && forall i, j | 0 <= i < j < k :: gates[i].id != gates[j].id
  }

  /** Gate k bears the id, and the gates before it name known predecessors only. */
  ghost predicate FirstDefect(gates: seq<Gate>, k: int, id: string) {
    && 0 <= k < |gates| && gates[k].id == id
    && forall i | 0 <= i < k :: AllKnown(ById(gates).Keys, gates[i].needs) && AllKnown(ById(gates).Keys, gates[i].after)
  }

  ghost predicate IsFirstUnknown(ids: set<string>, names: seq<string>, i: int, name: string) {
    0 <= i < |names| && names[i] == name && name !in ids && forall j | 0 <= j < i :: names[j] in ids
  }

  function FirstUnknown(ids: set<string>, names: seq<string>): (r: Option<string>)
    ensures r.Some? ==> exists i :: IsFirstUnknown(ids, names, i, r.value)
    ensures r.None? <==> AllKnown(ids, names)
  {
    assert names != [] ==> names[0] in names && forall n :: n in names <==> n == names[0] || n in names[1..];
    if names == [] then None
    else if names[0] !in ids then
      assert IsFirstUnknown(ids, names, 0, names[0]);
      Some(names[0])
    else
      var r := FirstUnknown(ids, names[1..]);
      UnknownBehindKnown(ids, names, r);
      r
  }

  lemma UnknownBehindKnown(ids: set<string>, names: seq<string>, r: Option<string>)
    requires names != [] && names[0] in ids
    requires r.Some? ==> exists i :: IsFirstUnknown(ids, names[1..], i, r.value)
    ensures r.Some? ==> exists i :: IsFirstUnknown(ids, names, i, r.value)
  {
    if r.Some? {
      var i :| IsFirstUnknown(ids, names[1..], i, r.value);
      assert forall j | 0 < j < |names| :: names[j] == names[1..][j - 1];
      assert IsFirstUnknown(ids, names, i + 1, r.value);
    }
  }

  /** Validation accepts exactly the executable graphs, and a rejection names a real defect. */
  method ValidateGateGraph(gates: seq<Gate>) returns (error: Option<GraphError>)
    ensures error.None? <==> ValidGraph(gates)
    ensures error.Some? ==> Explains(gates, error.value)
  {
    if |gates| == 0 {
      return Some(NoGates);
    }
    error := CheckUniqueIds(gates);
    if error.None? {
      error := CheckPredecessors(gates);
    }
    if error.None? {
      var cycle := FindDependencyCycle(gates);
      error := if cycle.Some? then Some(DependencyCycle(cycle.value)) else None;
    }
  }

  method CheckUniqueIds(gates: seq<Gate>) returns (error: Option<GraphError>)
    ensures error.None? <==> UniqueIds(gates)
    ensures error.Some? ==> error.value.DuplicateGate? && Explains(gates, error.value)
  {
    var ids := {};
    for k := 0 to |gates|
      invariant forall id :: id in ids <==> exists i :: 0 <= i < k && gates[i].id == id
      invariant forall i, j | 0 <= i < j < k :: gates[i].id != gates[j].id
    {
      if gates[k].id in ids {
        assert FirstRepeat(gates, k, gates[k].id);
        return Some(DuplicateGate(gates[k].id));
      }
      ids := ids + {gates[k].id};
    }
    return None;
  }

  method CheckPredecessors(gates: seq<Gate>) returns (error: Option<GraphError>)
    requires UniqueIds(gates)
    ensures error.None? <==> KnownPredecessors(ById(gates))
    ensures error.Some? ==> (error.value.UnknownNeed? || error.value.UnknownAfter?) && Explains(gates, error.value)
  {
    UniqueIdLookup(gates);
    var gate := ById(gates);
    for k := 0 to |gates|
      invariant forall i | 0 <= i < k :: AllKnown(gate.Keys, gates[i].needs) && AllKnown(gate.Keys, gates[i].after)
    {
      assert gate[gates[k].id] == gates[k];
      var need := FirstUnknown(gate.Keys, gates[k].needs);
      if need.Some? {
        assert FirstDefect(gates, k, gates[k].id);
        return Some(UnknownNeed(gates[k].id, need.value));
      }
      var predecessor := FirstUnknown(gate.Keys, gates[k].after);
      if predecessor.Some? {
        assert FirstDefect(gates, k, gates[k].id);
        return Some(UnknownAfter(gates[k].id, predecessor.value));
      }
    }
    return None;
  }
}
