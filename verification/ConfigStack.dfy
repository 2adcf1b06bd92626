/**
 When the presence check returns at all. It recurses on a call stack, guarded only at named declarations with the number
 of steps left. Every other call asks a smaller type, so it returns exactly when the key paths it asks for stay within
 one length: whenever no declaration reaches itself through the object of an indexed access.
 */
module ConfigStack {
  import opened Wrappers
  import opened ConfigTypes
  import opened ConfigLookup

  // ---- More stack changes nothing ----------------------------------------------------------------------------------

  /** A call that returns on some stack returns the same on any deeper one. */
  lemma {:induction false} DeeperStackAgrees(w: World, depth: nat, more: nat, node: Node, path: seq<PathStep>,
        seen: set<Key>)
    requires w.Closed() && Known(w, node) && LookupPath(w, depth, node, path, seen).Done?
    ensures LookupPath(w, depth + more, node, path, seen) == LookupPath(w, depth, node, path, seen)
    decreases depth, 0
  {
    hide LookupPath, LookupAll, Reading;
    LookupEnds(w, depth, node, path, seen);
    LookupEnds(w, depth + more, node, path, seen);
    if path != [] {
      LookupUnfolds(w, depth, node, path, seen);
      LookupUnfolds(w, depth + more, node, path, seen);
      var inside := Entered(w, node, path, seen);
      if !GuardAnswers(w, node, path, seen) {
        match Reading(w, node, path)
        case Leaf(_) =>
        case Next(m, rest) => DeeperStackAgrees(w, depth - 1, more, m, rest, inside);
        case AnyOf(nodes, rest) => DeeperStackAgreesOnAll(w, depth - 1, more, nodes, rest, inside);
        case AllOf(nodes, rest) => DeeperStackAgreesOnAll(w, depth - 1, more, nodes, rest, inside);
      }
    }
  }

  lemma {:induction false} DeeperStackAgreesOnAll(w: World, depth: nat, more: nat, nodes: seq<Option<Node>>,
        path: seq<PathStep>, seen: set<Key>)
    requires w.Closed() && AllKnown(w, nodes) && LookupAll(w, depth, nodes, path, seen).AllDone?
    ensures LookupAll(w, depth + more, nodes, path, seen) == LookupAll(w, depth, nodes, path, seen)
    decreases depth, 1, |nodes|
  {
    hide LookupPath;
    if nodes != [] {
      var first := if nodes[0].None? then Done(Unknown, seen, false) else LookupPath(w, depth, nodes[0].value,
          path, seen);
      if nodes[0].Some? {
        DeeperStackAgrees(w, depth, more, nodes[0].value, path, seen);
      }
      DeeperStackAgreesOnAll(w, depth, more, nodes[1..], path, first.seen);
    }
  }

  // ---- The calls a call makes --------------------------------------------------------------------------------------

  /** No call made inside this one, on this stack, asks for a key path of more than `bound` steps. */
  ghost predicate Within(w: World, depth: nat, node: Node, path: seq<PathStep>, seen: set<Key>, bound: nat)
    requires w.Closed() && Known(w, node)
    decreases depth, 0
  {
    depth == 0
    || (|path| <= bound
        && (path == [] || GuardAnswers(w, node, path, seen) ||
              match Reading(w, node, path)
              case Leaf(_) => true
              case Next(m, rest) => Within(w, depth - 1, m, rest, Entered(w, node, path, seen), bound)
              case AnyOf(nodes, rest) => AllWithin(w, depth - 1, nodes, rest, Entered(w, node, path, seen), bound)
              case AllOf(nodes, rest) => AllWithin(w, depth - 1, nodes, rest, Entered(w, node, path, seen), bound)))
  }

  /** The same for calls on several nodes in order; behind one that exhausts the stack no other is made. */
  ghost predicate AllWithin(w: World, depth: nat, nodes: seq<Option<Node>>, path: seq<PathStep>, seen: set<Key>,
      bound: nat)
    requires w.Closed() && AllKnown(w, nodes)
    decreases depth, 1, |nodes|
  {
    if nodes == [] then true
    else if nodes[0].None? then AllWithin(w, depth, nodes[1..], path, seen, bound)
    else
      var first := LookupPath(w, depth, nodes[0].value, path, seen);
      && Within(w, depth, nodes[0].value, path, seen, bound)
      && (first.Done? ==> AllWithin(w, depth, nodes[1..], path, first.seen, bound))
  }

  /** A call that returns asks, on any stack, only for key paths longer by at most the stack it needed. */
  lemma {:induction false} ReturningStaysWithin(w: World, depth: nat, any: nat, node: Node, path: seq<PathStep>,
      seen: set<Key>, bound: nat)
    requires w.Closed() && Known(w, node) && LookupPath(w, depth, node, path, seen).Done?
    requires |path| + depth <= bound
    ensures Within(w, any, node, path, seen, bound)
    decreases depth, 0
  {
    hide LookupPath, LookupAll, Reading;
    LookupEnds(w, depth, node, path, seen);
    if any > 0 && path != [] && !GuardAnswers(w, node, path, seen) {
      LookupUnfolds(w, depth, node, path, seen);
      ViewsAreLonger(w, node, path);
      var inside := Entered(w, node, path, seen);
      match Reading(w, node, path)
      case Leaf(_) =>
      case Next(m, rest) => ReturningStaysWithin(w, depth - 1, any - 1, m, rest, inside, bound);
      case AnyOf(nodes, rest) => ReturningAllStayWithin(w, depth - 1, any - 1, nodes, rest, inside, bound);
      case AllOf(nodes, rest) => ReturningAllStayWithin(w, depth - 1, any - 1, nodes, rest, inside, bound);
    }
  }

  lemma {:induction false} ReturningAllStayWithin(w: World, depth: nat, any: nat, nodes: seq<Option<Node>>,
      path: seq<PathStep>, seen: set<Key>, bound: nat)
    requires w.Closed() && AllKnown(w, nodes) && LookupAll(w, depth, nodes, path, seen).AllDone?
    requires |path| + depth <= bound
    ensures AllWithin(w, any, nodes, path, seen, bound)
    decreases depth, 1, |nodes|
  {
    hide LookupPath, Within;
    if nodes != [] {
      if nodes[0].None? {
        ReturningAllStayWithin(w, depth, any, nodes[1..], path, seen, bound);
      } else {
        var first := LookupPath(w, depth, nodes[0].value, path, seen);
        ReturningStaysWithin(w, depth, any, nodes[0].value, path, seen, bound);
        ReturnsAgree(w, depth, any, nodes[0].value, path, seen);
        ReturningAllStayWithin(w, depth, any, nodes[1..], path, first.seen, bound);
      }
    }
  }

  lemma ReturnsAgree(w: World, depth: nat, other: nat, node: Node, path: seq<PathStep>, seen: set<Key>)
    requires w.Closed() && Known(w, node) && LookupPath(w, depth, node, path, seen).Done?
    ensures LookupPath(w, other, node, path, seen).Done? ==>
              LookupPath(w, other, node, path, seen) == LookupPath(w, depth, node, path, seen)
  {
    hide LookupPath;
    if depth <= other {
      DeeperStackAgrees(w, depth, other - depth, node, path, seen);
    } else if LookupPath(w, other, node, path, seen).Done? {
      DeeperStackAgrees(w, other, depth - other, node, path, seen);
    }
  }

  /** One step on the key path is longer by at most one step. */
  lemma ViewsAreLonger(w: World, node: Node, path: seq<PathStep>)
    requires w.Closed() && Known(w, node) && path != []
    ensures
      match Reading(w, node, path)
      case Leaf(_) => true
      case Next(_, rest) => |rest| <= |path| + 1
      case AnyOf(_, rest) => rest == path
      case AllOf(_, rest) => rest == path
  {}

  // ---- What falls from a node to the nodes it asks -----------------------------------------------------------------

  function TypeSize(t: Type): (n: nat)
    ensures n > 0
  {
    match t
    case Literal(ms) => 1 + MembersSize(ms)
    case Paren(u) => 1 + TypeSize(u)
    case Intersection(parts) => 1 + PartsSize(parts)
    case Union(parts) => 1 + PartsSize(parts)
    case ArrayOf(u) => 1 + TypeSize(u)
    case Operator(_, u) => 1 + TypeSize(u)
    case Indexed(u, _) => 1 + TypeSize(u)
    case Reference(_, _, args) => 1 + PartsSize(args)
    case Opaque => 1
  }

  function PartsSize(parts: seq<Type>): (n: nat)
    ensures forall i | 0 <= i < |parts| :: TypeSize(parts[i]) <= n
  {
    if parts == [] then 0 else TypeSize(parts[0]) + PartsSize(parts[1..])
  }

  function MembersSize(ms: seq<TypeMember>): nat {
    if ms == [] then 0 else MemberSize(ms[0]) + MembersSize(ms[1..])
  }

  function MemberSize(m: TypeMember): nat {
    if m.Property? && m.typ.Some? then TypeSize(m.typ.value) else 0
  }

  function NodeSize(node: Node): nat {
    if node.TypeIn? then TypeSize(node.typ) else 0
  }

  predicate Smaller(node: Node, m: Node) {
    node.TypeIn? ==> NodeSize(m) < NodeSize(node)
  }

  predicate AllSmaller(node: Node, nodes: seq<Option<Node>>) {
    forall i | 0 <= i < |nodes| && nodes[i].Some? :: Smaller(node, nodes[i].value)
  }

  lemma ReadMemberIsSmaller(ms: seq<TypeMember>, k: string)
    requires ReadMember(ms, k).Declares?
    ensures TypeSize(ReadMember(ms, k).typ) <= MembersSize(ms)
  {}

  /** A type asks smaller types and declarations only; the key path may grow. */
  lemma ViewsAreSmaller(w: World, node: Node, path: seq<PathStep>)
    requires w.Closed() && Known(w, node) && path != []
    ensures
      match Reading(w, node, path)
      case Leaf(_) => true
      case Next(m, _) => Smaller(node, m)
      case AnyOf(nodes, _) => AllSmaller(node, nodes)
      case AllOf(nodes, _) => AllSmaller(node, nodes)
  {
    if node.TypeIn? && node.typ.Literal? && path[0].Member? && ReadMember(node.typ.members, path[0].name).Declares? {
      ReadMemberIsSmaller(node.typ.members, path[0].name);
    }
  }

  /** The guard entries still free: declarations with at most `steps` steps left that have not been entered. */
  function Free(w: World, seen: set<Key>, steps: nat): set<Key> {
    set id, k | id in w.decls && 1 <= k <= steps && Key(id, k) !in seen :: Key(id, k)
  }

  lemma SubsetIsNoLarger<T>(a: set<T>, b: set<T>)
    requires a <= b
    ensures |a| <= |b|
  {
    assert b == a + (b - a);
  }

  /** A guard that holds a node's own entry, and all that was held before, leaves fewer entries free. */
  lemma FreeFalls(w: World, node: Node, path: seq<PathStep>, seen: set<Key>, now: set<Key>, steps: nat)
    requires Known(w, node) && path != [] && |path| <= steps && !GuardAnswers(w, node, path, seen)
    requires Entered(w, node, path, seen) <= now
    ensures |Free(w, now, steps)| <= |Free(w, seen, steps)|
    ensures node.Declared? && !w.decls[node.id].Enum? ==> |Free(w, now, steps)| < |Free(w, seen, steps)|
  {
    var before := Free(w, seen, steps);
    if node.Declared? && !w.decls[node.id].Enum? {
      var key := Key(node.id, |path|);
      assert key in Entered(w, node, path, seen) && key in before;
      SubsetIsNoLarger(Free(w, now, steps), before - {key});
    } else {
      SubsetIsNoLarger(Free(w, now, steps), before);
    }
  }

  lemma EnumIsLeaf(w: World, node: Node, path: seq<PathStep>)
    requires w.Closed() && Known(w, node) && path != []
    ensures node.Declared? && w.decls[node.id].Enum? ==> Reading(w, node, path).Leaf?
  {
  }

  // ---- When the check returns --------------------------------------------------------------------------------------

  /**
   Within one length the calls come to an end: entering a declaration uses up a free guard entry, and every other call
   is on a smaller type.
   */
  lemma {:induction false} BoundedReturns(w: World, bound: nat, from: nat, node: Node, path: seq<PathStep>,
      seen: set<Key>)
    returns (depth: nat)
    requires w.Closed() && Known(w, node) && forall d: nat | d >= from :: Within(w, d, node, path, seen, bound)
    ensures LookupPath(w, depth, node, path, seen).Done?
    decreases |Free(w, seen, bound)|, NodeSize(node)
  {
    hide LookupPath, LookupAll, Reading, Free, Smaller;
    if path == [] {
      depth := 1;
      LookupEnds(w, 1, node, path, seen);
    } else if GuardAnswers(w, node, path, seen) || Reading(w, node, path).Leaf? {
      depth := 1;
      LookupUnfolds(w, 1, node, path, seen);
    } else {
      EnumIsLeaf(w, node, path);
      ViewsAreSmaller(w, node, path);
      assert Within(w, from + 1, node, path, seen, bound);
      var inside := Entered(w, node, path, seen);
      match Reading(w, node, path)
      case Next(m, rest) =>
        forall d: nat | d >= from ensures Within(w, d, m, rest, inside, bound) {
          assert Within(w, d + 1, node, path, seen, bound);
        }
        depth := BoundedReturnsBelow(w, bound, from, node, path, seen, m, rest, inside);
        LookupUnfolds(w, depth + 1, node, path, seen);
        depth := depth + 1;
      case AnyOf(nodes, rest) =>
        forall d: nat | d >= from ensures AllWithin(w, d, nodes, rest, inside, bound) {
          assert Within(w, d + 1, node, path, seen, bound);
        }
        depth := BoundedReturnsForAll(w, bound, from, node, path, seen, nodes, rest, inside);
        LookupUnfolds(w, depth + 1, node, path, seen);
        depth := depth + 1;
      case AllOf(nodes, rest) =>
        forall d: nat | d >= from ensures AllWithin(w, d, nodes, rest, inside, bound) {
          assert Within(w, d + 1, node, path, seen, bound);
        }
        depth := BoundedReturnsForAll(w, bound, from, node, path, seen, nodes, rest, inside);
        LookupUnfolds(w, depth + 1, node, path, seen);
        depth := depth + 1;
    }
  }

  lemma {:induction false} BoundedReturnsBelow(w: World, bound: nat, from: nat, node: Node, path: seq<PathStep>,
      seen: set<Key>, m: Node, rest: seq<PathStep>, now: set<Key>)
    returns (depth: nat)
    requires w.Closed() && Known(w, node) && Known(w, m) && 0 < |path| <= bound && Smaller(node, m)
    requires !GuardAnswers(w, node, path, seen) && !(node.Declared? && w.decls[node.id].Enum?)
    requires Entered(w, node, path, seen) <= now && forall d: nat | d >= from :: Within(w, d, m, rest, now, bound)
    ensures LookupPath(w, depth, m, rest, now).Done?
    decreases |Free(w, seen, bound)|, NodeSize(node), 0
  {
    FreeFalls(w, node, path, seen, now, bound);
    depth := BoundedReturns(w, bound, from, m, rest, now);
  }

  lemma {:induction false} BoundedReturnsForAll(w: World, bound: nat, from: nat, node: Node, path: seq<PathStep>,
      seen: set<Key>, nodes: seq<Option<Node>>, rest: seq<PathStep>, now: set<Key>)
    returns (depth: nat)
    requires w.Closed() && Known(w, node) && AllKnown(w, nodes) && 0 < |path| <= bound && AllSmaller(node, nodes)
    requires !GuardAnswers(w, node, path, seen) && !(node.Declared? && w.decls[node.id].Enum?)
    requires Entered(w, node, path, seen) <= now
    requires forall d: nat | d >= from :: AllWithin(w, d, nodes, rest, now, bound)
    ensures LookupAll(w, depth, nodes, rest, now).AllDone?
    decreases |Free(w, seen, bound)|, NodeSize(node), |nodes| + 1
  {
    hide LookupPath, Free, Within, Smaller;
    if nodes == [] {
      depth := 0;
    } else {
      var one: nat, first := 0, Done(Unknown, now, false);
      if nodes[0].Some? {
        forall d: nat | d >= from ensures Within(w, d, nodes[0].value, rest, now, bound) {
          assert AllWithin(w, d, nodes, rest, now, bound);
        }
        one := BoundedReturnsBelow(w, bound, from, node, path, seen, nodes[0].value, rest, now);
        first := LookupPath(w, one, nodes[0].value, rest, now);
      }
      forall d: nat | d >= from + one ensures AllWithin(w, d, nodes[1..], rest, first.seen, bound) {
        assert AllWithin(w, d, nodes, rest, now, bound);
        if nodes[0].Some? {
          DeeperStackAgrees(w, one, d - one, nodes[0].value, rest, now);
        }
      }
      var others := BoundedReturnsForAll(w, bound, from + one, node, path, seen, nodes[1..], rest, first.seen);
      depth := one + others;
      if nodes[0].Some? {
        DeeperStackAgrees(w, one, others, nodes[0].value, rest, now);
      }
      DeeperStackAgreesOnAll(w, others, one, nodes[1..], rest, first.seen);
    }
  }

  ghost predicate Returns(w: World, node: Node, path: seq<PathStep>, seen: set<Key>)
    requires w.Closed() && Known(w, node)
  {
    exists depth: nat :: LookupPath(w, depth, node, path, seen).Done?
  }

  /** One length bounds the key paths asked on every stack. */
  ghost predicate Bounded(w: World, node: Node, path: seq<PathStep>, seen: set<Key>, bound: nat)
    requires w.Closed() && Known(w, node)
  {
    forall depth: nat :: Within(w, depth, node, path, seen, bound)
  }

  /**
   Some stack is deep enough, whatever the guard already holds and however the declarations recurse, if and only if the
   key paths the calls ask for stay within one length.
   */
  lemma ReturnsExactlyWhenBounded(w: World, node: Node, path: seq<PathStep>, seen: set<Key>)
    requires w.Closed() && Known(w, node)
    ensures Returns(w, node, path, seen) <==> exists bound: nat :: Bounded(w, node, path, seen, bound)
  {
    hide LookupPath, Within;
    if depth: nat :| LookupPath(w, depth, node, path, seen).Done? {
      var bound := |path| + depth;
      forall any: nat ensures Within(w, any, node, path, seen, bound) {
        ReturningStaysWithin(w, depth, any, node, path, seen, bound);
      }
      assert Bounded(w, node, path, seen, bound);
    }
    if bound: nat :| Bounded(w, node, path, seen, bound) {
      var depth := BoundedReturns(w, bound, 0, node, path, seen);
    }
  }

  // ---- Worlds in which indexed access does not recurse -------------------------------------------------------------

  type Ranks = map<DeclId, nat>

  /**
   Every declaration the walk can reach from `node` has a rank below `level`, and below one less inside each indexed
   access.
   */
  ghost predicate RankedType(w: World, ranks: Ranks, file: string, t: Type, level: nat) {
    match t
    case Literal(ms) => forall i | 0 <= i < |ms| :: RankedMember(w, ranks, file, ms[i], level)
    case Paren(u) => RankedType(w, ranks, file, u, level)
    case Intersection(parts) => forall i | 0 <= i < |parts| :: RankedType(w, ranks, file, parts[i], level)
    case Union(parts) => forall i | 0 <= i < |parts| :: RankedType(w, ranks, file, parts[i], level)
    case ArrayOf(u) => RankedType(w, ranks, file, u, level)
    case Operator(_, u) => RankedType(w, ranks, file, u, level)
    case Indexed(u, index) => index.Some? ==> level > 0 && RankedType(w, ranks, file, u, level - 1)
    case Reference(name, qualified, args) =>
      if (IsPassthrough(name) || IsArrayName(name)) && args != [] then RankedType(w, ranks, file, args[0], level)
      else !qualified ==> RankedName(w, ranks, file, name, level)
    case Opaque => true
  }

  ghost predicate RankedMember(w: World, ranks: Ranks, file: string, m: TypeMember, level: nat) {
    m.Property? && m.typ.Some? ==> RankedType(w, ranks, file, m.typ.value, level)
  }

  predicate RankedName(w: World, ranks: Ranks, file: string, name: string, level: nat) {
    Scoped(file, name) in w.scope ==> w.scope[Scoped(file, name)] in ranks && ranks[w.scope[Scoped(file, name)]] < level
  }

  ghost predicate RankedDecl(w: World, ranks: Ranks, id: DeclId)
    requires id in w.decls && id in ranks
  {
    match w.decls[id]
    case Enum => true
    case Alias(t) => RankedType(w, ranks, id.file, t, ranks[id] + 1)
    case Interface(ms, bases) =>
      && (forall i | 0 <= i < |ms| :: RankedMember(w, ranks, id.file, ms[i], ranks[id] + 1))
      && (forall i | 0 <= i < |bases| && bases[i].Some? :: RankedName(w, ranks, id.file, bases[i].value, ranks[id] + 1))
  }

  /** Declarations may be arbitrarily recursive, but the object of an indexed access only reaches lower ranks. */
  ghost predicate Ranked(w: World, ranks: Ranks) {
    && w.Closed() && ranks.Keys == w.decls.Keys
    && forall id {:trigger ranks[id]} | id in ranks :: RankedDecl(w, ranks, id)
  }

  ghost predicate RankedNode(w: World, ranks: Ranks, node: Node, level: nat) {
    match node
    case Declared(id) => id in ranks && ranks[id] < level
    case TypeIn(file, t) => RankedType(w, ranks, file, t, level)
  }

  /** The level of the nodes a node asks. */
  function InnerLevel(ranks: Ranks, node: Node, level: nat): nat
    requires node.Declared? ==> node.id in ranks
  {
    if node.Declared? then ranks[node.id] + 1
    else if node.typ.Indexed? && level > 0 then level - 1 else level
  }

  ghost predicate Lower(w: World, ranks: Ranks, node: Node, path: seq<PathStep>, level: nat, m: Node,
      rest: seq<PathStep>)
    requires node.Declared? ==> node.id in ranks
  {
    var inner := InnerLevel(ranks, node, level);
    RankedNode(w, ranks, m, inner) && |rest| + inner <= |path| + level
  }

  ghost predicate LowerParts(w: World, ranks: Ranks, node: Node, path: seq<PathStep>, level: nat,
      nodes: seq<Option<Node>>, rest: seq<PathStep>)
    requires node.Declared? ==> node.id in ranks
  {
    forall i | 0 <= i < |nodes| && nodes[i].Some? :: Lower(w, ranks, node, path, level, nodes[i].value, rest)
  }

  lemma ReadMemberIsRanked(w: World, ranks: Ranks, file: string, ms: seq<TypeMember>, k: string, level: nat)
    requires forall i | 0 <= i < |ms| :: RankedMember(w, ranks, file, ms[i], level)
    requires ReadMember(ms, k).Declares?
    ensures RankedType(w, ranks, file, ReadMember(ms, k).typ, level)
  {
    if !(ms[0].Property? && Spelling(ms[0].name) == k) {
      ReadMemberIsRanked(w, ranks, file, ms[1..], k, level);
    }
  }

  /** A step the path grows by is a level lost. */
  lemma ViewsAreLower(w: World, ranks: Ranks, node: Node, path: seq<PathStep>, level: nat)
    requires Ranked(w, ranks) && Known(w, node) && RankedNode(w, ranks, node, level) && path != []
    ensures
      match Reading(w, node, path)
      case Leaf(_) => true
      case Next(m, rest) => Lower(w, ranks, node, path, level, m, rest)
      case AnyOf(nodes, rest) => LowerParts(w, ranks, node, path, level, nodes, rest)
      case AllOf(nodes, rest) => LowerParts(w, ranks, node, path, level, nodes, rest)
  {
    match node
    case Declared(id) =>
      assert RankedDecl(w, ranks, id);
      match w.decls[id] {
        case Enum =>
        case Alias(t) =>
        case Interface(ms, bases) =>
          if path[0].Member? && ReadMember(ms, path[0].name).Declares? {
            ReadMemberIsRanked(w, ranks, id.file, ms, path[0].name, ranks[id] + 1);
          }
      }
    case TypeIn(file, t) =>
      if t.Literal? && path[0].Member? && ReadMember(t.members, path[0].name).Declares? {
        ReadMemberIsRanked(w, ranks, file, t.members, path[0].name, level);
      }
  }

  lemma {:induction false} RankedStaysWithin(w: World, ranks: Ranks, depth: nat, level: nat, node: Node,
      path: seq<PathStep>, seen: set<Key>, bound: nat)
    requires w.Closed() && Ranked(w, ranks) && Known(w, node) && RankedNode(w, ranks, node, level)
    requires |path| + level <= bound
    ensures Within(w, depth, node, path, seen, bound)
    decreases depth, 0
  {
    hide LookupPath, Reading, Ranked;
    if depth > 0 && path != [] && !GuardAnswers(w, node, path, seen) {
      ViewsAreLower(w, ranks, node, path, level);
      var inner, inside := InnerLevel(ranks, node, level), Entered(w, node, path, seen);
      match Reading(w, node, path)
      case Leaf(_) =>
      case Next(m, rest) => RankedStaysWithin(w, ranks, depth - 1, inner, m, rest, inside, bound);
      case AnyOf(nodes, rest) => RankedAllStayWithin(w, ranks, depth - 1, inner, nodes, rest, inside, bound);
      case AllOf(nodes, rest) => RankedAllStayWithin(w, ranks, depth - 1, inner, nodes, rest, inside, bound);
    }
  }

  lemma {:induction false} RankedAllStayWithin(w: World, ranks: Ranks, depth: nat, level: nat,
      nodes: seq<Option<Node>>, path: seq<PathStep>, seen: set<Key>, bound: nat)
    requires w.Closed() && Ranked(w, ranks) && AllKnown(w, nodes)
    requires forall i | 0 <= i < |nodes| && nodes[i].Some? ::
               RankedNode(w, ranks, nodes[i].value, level) && |path| + level <= bound
    ensures AllWithin(w, depth, nodes, path, seen, bound)
    decreases depth, 1, |nodes|
  {
    hide LookupPath, Within, Ranked, RankedNode;
    if nodes != [] {
      if nodes[0].None? {
        RankedAllStayWithin(w, ranks, depth, level, nodes[1..], path, seen, bound);
      } else {
        RankedStaysWithin(w, ranks, depth, level, nodes[0].value, path, seen, bound);
        var first := LookupPath(w, depth, nodes[0].value, path, seen);
        if first.Done? {
          RankedAllStayWithin(w, ranks, depth, level, nodes[1..], path, first.seen, bound);
        }
      }
    }
  }

  /** In a ranked world, and whatever the guard already holds, some stack is deep enough. */
  lemma SomeStackSuffices(w: World, ranks: Ranks, level: nat, node: Node, path: seq<PathStep>, seen: set<Key>)
    returns (depth: nat)
    requires Ranked(w, ranks) && Known(w, node) && RankedNode(w, ranks, node, level)
    ensures LookupPath(w, depth, node, path, seen).Done?
  {
    hide LookupPath, Within;
    var bound := |path| + level;
    forall d: nat ensures Within(w, d, node, path, seen, bound) {
      RankedStaysWithin(w, ranks, d, level, node, path, seen, bound);
    }
    depth := BoundedReturns(w, bound, 0, node, path, seen);
  }

  /** No indexed access by a string literal anywhere in the type. */
  predicate IndexFreeType(t: Type) {
    match t
    case Literal(ms) => forall i | 0 <= i < |ms| :: IndexFreeMember(ms[i])
    case Paren(u) => IndexFreeType(u)
    case Intersection(parts) => forall i | 0 <= i < |parts| :: IndexFreeType(parts[i])
    case Union(parts) => forall i | 0 <= i < |parts| :: IndexFreeType(parts[i])
    case ArrayOf(u) => IndexFreeType(u)
    case Operator(_, u) => IndexFreeType(u)
    case Indexed(_, index) => index.None?
    case Reference(_, _, args) => forall i | 0 <= i < |args| :: IndexFreeType(args[i])
    case Opaque => true
  }

  predicate IndexFreeMember(m: TypeMember) {
    m.Property? && m.typ.Some? ==> IndexFreeType(m.typ.value)
  }

  predicate IndexFreeDecl(d: Decl) {
    match d
    case Enum => true
    case Alias(t) => IndexFreeType(t)
    case Interface(ms, _) => forall i | 0 <= i < |ms| :: IndexFreeMember(ms[i])
  }

  function ZeroRanks(w: World): Ranks {
    map id | id in w.decls :: 0
  }

  lemma IndexFreeIsRankedType(w: World, file: string, t: Type)
    requires w.Closed() && IndexFreeType(t)
    ensures RankedType(w, ZeroRanks(w), file, t, 1)
  {
  }

  /**
   Without indexed access any declarations whatever, however they recurse, are ranked, so the check returns on them.
   */
  lemma IndexFreeIsRanked(w: World)
    requires w.Closed() && forall id {:trigger w.decls[id]} | id in w.decls :: IndexFreeDecl(w.decls[id])
    ensures Ranked(w, ZeroRanks(w))
  {
    var ranks := ZeroRanks(w);
    forall id {:trigger ranks[id]} | id in ranks ensures RankedDecl(w, ranks, id) {
      assert IndexFreeDecl(w.decls[id]);
      match w.decls[id]
      case Enum =>
      case Alias(t) => IndexFreeIsRankedType(w, id.file, t);
      case Interface(ms, _) =>
        forall i | 0 <= i < |ms| ensures RankedMember(w, ranks, id.file, ms[i], 1) {
          if ms[i].Property? && ms[i].typ.Some? {
            IndexFreeIsRankedType(w, id.file, ms[i].typ.value);
          }
        }
    }
  }

  // ---- An indexed access that recurses -----------------------------------------------------------------------------

  /** `type A = A['x']`. */
  ghost predicate SelfIndexed(w: World, id: DeclId, name: string, key: string) {
    && w.Closed() && id in w.decls
    && w.decls[id] == Alias(Indexed(Reference(name, false, []), Some(key)))
    && Scoped(id.file, name) in w.scope && w.scope[Scoped(id.file, name)] == id
  }

  /** On such a declaration no stack is deep enough: each round asks the same declaration for one more step. */
  lemma {:induction false} SelfIndexedNeverReturns(w: World, depth: nat, id: DeclId, name: string, key: string,
        path: seq<PathStep>, seen: set<Key>)
    requires SelfIndexed(w, id, name, key) && path != []
    requires forall k: Key | k in seen && k.decl == id :: k.remaining < |path|
    ensures LookupPath(w, depth, Declared(id), path, seen).Overflow?
  {
    if depth > 0 {
      var inside := seen + {Key(id, |path|)};
      LookupUnfolds(w, depth, Declared(id), path, seen);
      if depth > 1 {
        var indexed := TypeIn(id.file, w.decls[id].typ);
        LookupUnfolds(w, depth - 1, indexed, path, inside);
        if depth > 2 {
          var longer := [Member(key)] + path;
          LookupUnfolds(w, depth - 2, TypeIn(id.file, Reference(name, false, [])), longer, inside);
          SelfIndexedNeverReturns(w, depth - 3, id, name, key, longer, inside);
        }
      }
    }
  }
}
