/** Finite directed graphs given by successor lists, and the two facts about cycles the schedulers rest on. */
module Digraph {

  type Graph = map<string, seq<string>>

  predicate Edge(g: Graph, a: string, b: string) {
    a in g && b in g[a]
  }

  predicate Walk(g: Graph, w: seq<string>) {
    |w| > 0 && forall i | 0 <= i < |w| - 1 :: Edge(g, w[i], w[i + 1])
  }

  predicate ClosedWalk(g: Graph, w: seq<string>) {
    |w| >= 2 && Walk(g, w) && w[0] == w[|w| - 1]
  }

  ghost predicate Acyclic(g: Graph) {
    forall w :: !ClosedWalk(g, w)
  }

  /** Every successor of `x` that is a node of the graph is among `done`. */
  predicate SuccessorsAmong(g: Graph, x: string, done: seq<string>)
    requires x in g
  {
    forall s {:trigger s in g[x]} | s in g[x] && s in g :: s in done
  }

  /** Every node of the graph on `order` comes after all of its successors that are nodes of the graph. */
  predicate TopologicalOrder(g: Graph, order: seq<string>) {
    && (forall k | 0 <= k < |order| :: order[k] in g)
    && (forall j, k | 0 <= j < k < |order| :: order[j] != order[k])
    && (forall k | 0 <= k < |order| :: SuccessorsAmong(g, order[k], order[..k]))
  }

  /** A finishing order that covers the graph rules out every closed walk: positions fall along each edge. */
  lemma OrderIsAcyclic(g: Graph, order: seq<string>)
    requires TopologicalOrder(g, order)
    requires forall x | x in g :: x in order
    ensures Acyclic(g)
  {
    forall w ensures !ClosedWalk(g, w) {
      if ClosedWalk(g, w) {
        assert Edge(g, w[0], w[1]);
        var start :| 0 <= start < |order| && order[start] == w[0];
        PositionsFall(g, order, w, start);
      }
    }
  }

  lemma PositionsFall(g: Graph, order: seq<string>, w: seq<string>, start: nat)
    requires TopologicalOrder(g, order) && Walk(g, w) && |w| >= 2
    requires start < |order| && order[start] == w[0]
    requires w[|w| - 1] in g
    ensures w[|w| - 1] in order[..start]
    decreases |w|
  {
    assert Edge(g, w[0], w[1]);
    if |w| > 2 {
      assert Edge(g, w[1], w[2]);
      var next :| 0 <= next < start && order[next] == w[1];
      WalkSuffix(g, w, 1);
      PositionsFall(g, order, w[1..], next);
    }
  }

  lemma WalkSuffix(g: Graph, w: seq<string>, from: nat)
    requires Walk(g, w) && from < |w|
    ensures Walk(g, w[from..])
  {
    var rest := w[from..];
    forall i | 0 <= i < |rest| - 1 ensures Edge(g, rest[i], rest[i + 1]) {
      assert Edge(g, w[from + i], w[from + i + 1]);
    }
  }

  lemma WalkPrefix(g: Graph, w: seq<string>, to: nat)
    requires Walk(g, w) && 0 < to <= |w|
    ensures Walk(g, w[..to])
  {
    var front := w[..to];
    forall i | 0 <= i < |front| - 1 ensures Edge(g, front[i], front[i + 1]) {
      assert Edge(g, w[i], w[i + 1]);
    }
  }

  lemma WalkExtends(g: Graph, w: seq<string>, next: string)
    requires Walk(g, w) && Edge(g, w[|w| - 1], next)
    ensures Walk(g, w + [next])
  {
    var longer := w + [next];
    forall i | 0 <= i < |longer| - 1 ensures Edge(g, longer[i], longer[i + 1]) {
      if i < |w| - 1 {
        assert Edge(g, w[i], w[i + 1]);
      }
    }
  }

  /** A walk that returns to one of its own nodes contains a closed walk, from that node on. */
  lemma ReturnClosesWalk(g: Graph, w: seq<string>, at: nat, next: string)
    requires Walk(g, w) && Edge(g, w[|w| - 1], next)
    requires at < |w| && w[at] == next
    ensures ClosedWalk(g, w[at..] + [next])
  {
    WalkSuffix(g, w, at);
    WalkExtends(g, w[at..], next);
  }

  /** In an acyclic graph every non-empty set has a node none of whose successors is in the set. */
  lemma MinimalNode(g: Graph, nodes: set<string>) returns (least: string)
    requires Acyclic(g) && nodes != {}
    ensures least in nodes && forall y | y in nodes :: !Edge(g, least, y)
  {
    var x :| x in nodes;
    least := DescendToMinimal(g, nodes, [x]);
  }

  lemma DescendToMinimal(g: Graph, nodes: set<string>, path: seq<string>) returns (least: string)
    requires Acyclic(g)
    requires Walk(g, path) && forall x | x in path :: x in nodes
    ensures least in nodes && forall y | y in nodes :: !Edge(g, least, y)
    decreases nodes - (set x | x in path)
  {
    least := path[|path| - 1];
    assert least in path;
    if next :| next in nodes && Edge(g, least, next) {
      if next in path {
        var at :| 0 <= at < |path| && path[at] == next;
        ReturnClosesWalk(g, path, at, next);
      }
      WalkExtends(g, path, next);
      assert next in nodes - (set x | x in path) && next in path + [next];
      least := DescendToMinimal(g, nodes, path + [next]);
    }
  }
}
