/**
 The presence check of a schema key path against a declared type: a three-valued walk over recursive declarations with
 one shared, mutable cycle guard. It is compared with what the type must have and may have.
 */
module ConfigLookup {
  import opened Wrappers
  import opened ConfigTypes

  /** A guard entry: a declaration and how many steps remained when it was entered. */
  datatype Key = Key(decl: DeclId, remaining: nat)

  /**
   How a call ends: with an answer and the guard as it leaves it, or by exhausting the call stack. `guarded` records
   whether the guard answered anywhere inside the call.
   */
  datatype Visit = Done(answer: Answer, seen: set<Key>, guarded: bool) | Overflow

  datatype Visits = AllDone(answers: seq<Answer>, seen: set<Key>, guarded: bool) | SomeOverflow

  /** Any found wins, else any unknown taints, else missing. */
  function Combine(answers: seq<Answer>): Answer {
    if exists i :: 0 <= i < |answers| && answers[i] == Found then Found
    else if exists i :: 0 <= i < |answers| && answers[i] == Unknown then Unknown
    else Missing
  }

  function Agree(answers: seq<Answer>): Answer {
    if forall i | 0 <= i < |answers| :: answers[i] == Found then Found
    else if forall i | 0 <= i < |answers| :: answers[i] == Missing then Missing
    else Unknown
  }

  /** A call on `node` with `depth` stack frames left. */
  function LookupPath(w: World, depth: nat, node: Node, path: seq<PathStep>, seen: set<Key>): (v: Visit)
    requires w.Closed() && Known(w, node)
    ensures v.Done? ==> seen <= v.seen
    decreases depth, 0
  {
    if depth == 0 then Overflow
    else if path == [] then Done(Found, seen, false)
    else
      match node
      case Declared(id) =>
        if w.decls[id].Enum? then Done(Unknown, seen, false)
        else if Key(id, |path|) in seen then Done(Unknown, seen, true)
        else LookupDecl(w, depth, id, path, seen + {Key(id, |path|)})
      case TypeIn(file, t) =>
        match t {
          case Literal(ms) =>
            if path[0].ArrayHop? then Done(Unknown, seen, false)
            else
              match ReadMember(ms, path[0].name) {
                case Declares(u) => LookupProperty(w, depth, file, u, path, seen)
                case Untyped => Done(if |path| == 1 then Found else Unknown, seen, false)
                case _ => Done(Missing, seen, false)
              }
          case Paren(u) => LookupPath(w, depth - 1, TypeIn(file, u), path, seen)
          case Intersection(parts) => Merge(LookupAll(w, depth - 1, TypesIn(file, parts), path, seen), false)
          case Union(parts) => Merge(LookupAll(w, depth - 1, TypesIn(file, parts), path, seen), true)
          case ArrayOf(u) =>
            if path[0].ArrayHop? then LookupPath(w, depth - 1, TypeIn(file, u), path[1..], seen)
            else Done(Unknown, seen, false)
          case Operator(_, u) => LookupPath(w, depth - 1, TypeIn(file, u), path, seen)
          case Indexed(u, index) =>
            if index.Some? then LookupPath(w, depth - 1, TypeIn(file, u), [Member(index.value)] + path, seen)
            else Done(Unknown, seen, false)
          case Reference(name, qualified, args) =>
            if IsPassthrough(name) && args != [] then LookupPath(w, depth - 1, TypeIn(file, args[0]), path, seen)
            else if IsArrayName(name) && args != [] then
              if path[0].ArrayHop? then LookupPath(w, depth - 1, TypeIn(file, args[0]), path[1..], seen)
              else Done(Unknown, seen, false)
            else if qualified || Resolve(w, file, name).None? then Done(Unknown, seen, false)
            else LookupPath(w, depth - 1, Resolve(w, file, name).value, path, seen)
          case Opaque => Done(Unknown, seen, false)
        }
  }

  /** The part of a call on an interface or alias that follows the guard. */
  function LookupDecl(w: World, depth: nat, id: DeclId, path: seq<PathStep>, seen: set<Key>): (v: Visit)
    requires w.Closed() && id in w.decls && !w.decls[id].Enum? && depth > 0 && path != []
    ensures v.Done? ==> seen <= v.seen
    decreases depth - 1, 2
  {
    match w.decls[id]
    case Alias(t) => LookupPath(w, depth - 1, TypeIn(id.file, t), path, seen)
    case Interface(ms, bases) =>
      if path[0].ArrayHop? then Done(Unknown, seen, false)
      else
        match ReadMember(ms, path[0].name)
        case Declares(u) => LookupProperty(w, depth, id.file, u, path, seen)
        case Untyped => Done(if |path| == 1 then Found else Unknown, seen, false)
        case _ => Merge(LookupAll(w, depth - 1, Bases(w, id.file, bases), path, seen), false)
  }

  function LookupProperty(w: World, depth: nat, file: string, t: Type, path: seq<PathStep>, seen: set<Key>): (v: Visit)
    requires w.Closed() && depth > 0 && path != []
    ensures v.Done? ==> seen <= v.seen
    decreases depth - 1, 1
  {
    if |path| == 1 then Done(Found, seen, false) else LookupPath(w, depth - 1, TypeIn(file, t), path[1..], seen)
  }

  /** The calls on several nodes in order, the guard passed from one to the next; a node out of reach is unknown. */
  function LookupAll(w: World, depth: nat, nodes: seq<Option<Node>>, path: seq<PathStep>, seen: set<Key>): (v: Visits)
    requires w.Closed() && AllKnown(w, nodes)
    ensures v.AllDone? ==> seen <= v.seen && |v.answers| == |nodes|
    decreases depth, 1, |nodes|
  {
    if nodes == [] then AllDone([], seen, false)
    else
      var first := if nodes[0].None? then Done(Unknown, seen, false) else LookupPath(w, depth, nodes[0].value,
          path, seen);
      if first.Overflow? then SomeOverflow
      else
        var rest := LookupAll(w, depth, nodes[1..], path, first.seen);
        if rest.SomeOverflow? then SomeOverflow
        else AllDone([first.answer] + rest.answers, rest.seen, first.guarded || rest.guarded)
  }

  function Merge(v: Visits, all: bool): Visit {
    if v.SomeOverflow? then Overflow
    else Done(if all then Agree(v.answers) else Combine(v.answers), v.seen, v.guarded)
  }

  // ---- What the walk reads -----------------------------------------------------------------------------------------

  /** One step of the walk, in the same terms as `Meaning`. */
  function Reading(w: World, node: Node, path: seq<PathStep>): (v: View)
    requires w.Closed() && Known(w, node) && path != []
    ensures ViewKnown(w, v)
  {
    match node
    case Declared(id) =>
      match w.decls[id] {
        case Interface(ms, bases) =>
          if path[0].ArrayHop? then Leaf(Unknown)
          else OfMember(id.file, ReadMember(ms, path[0].name), path[1..], AnyOf(Bases(w, id.file, bases), path))
        case _ => Meaning(w, node, path)
      }
    case TypeIn(file, t) =>
      match t {
        case Literal(ms) =>
          if path[0].ArrayHop? then Leaf(Unknown)
          else OfMember(file, ReadMember(ms, path[0].name), path[1..], Leaf(Missing))
        case Operator(_, u) => Next(TypeIn(file, u), path)
        case _ => Meaning(w, node, path)
      }
  }

  lemma ReadMemberKinds(ms: seq<TypeMember>, k: string)
    ensures !ReadMember(ms, k).Perhaps?
  {
  }

  /** The guard with which the inside of a call runs. */
  function Entered(w: World, node: Node, path: seq<PathStep>, seen: set<Key>): set<Key>
    requires Known(w, node)
  {
    if node.Declared? && !w.decls[node.id].Enum? then seen + {Key(node.id, |path|)} else seen
  }

  predicate GuardAnswers(w: World, node: Node, path: seq<PathStep>, seen: set<Key>)
    requires Known(w, node)
  {
    node.Declared? && !w.decls[node.id].Enum? && Key(node.id, |path|) in seen
  }

  lemma LookupEnds(w: World, depth: nat, node: Node, path: seq<PathStep>, seen: set<Key>)
    requires w.Closed() && Known(w, node)
    ensures depth == 0 ==> LookupPath(w, depth, node, path, seen).Overflow?
    ensures depth > 0 && path == [] ==> LookupPath(w, depth, node, path, seen) == Done(Found, seen, false)
  {
  }

  /** A call follows the view the walk reads, unless the guard answers it. */
  lemma LookupUnfolds(w: World, depth: nat, node: Node, path: seq<PathStep>, seen: set<Key>)
    requires w.Closed() && Known(w, node) && path != [] && depth > 0
    ensures
      var v := LookupPath(w, depth, node, path, seen);
      if GuardAnswers(w, node, path, seen) then v == Done(Unknown, seen, true)
      else
        match Reading(w, node, path)
        case Leaf(a) => v == Done(a, Entered(w, node, path, seen), false)
        case Next(m, rest) => Known(w, m) && v == LookupPath(w, depth - 1, m, rest, Entered(w, node, path, seen))
        case AnyOf(nodes, rest) =>
          AllKnown(w, nodes) && v == Merge(LookupAll(w, depth - 1, nodes, rest, Entered(w, node, path, seen)), false)
        case AllOf(nodes, rest) =>
          AllKnown(w, nodes) && v == Merge(LookupAll(w, depth - 1, nodes, rest, Entered(w, node, path, seen)), true)
  {
    if node.Declared? && !w.decls[node.id].Enum? {
      DeclUnfolds(w, depth, node.id, path, Entered(w, node, path, seen));
    } else if node.TypeIn? && node.typ.Literal? && path[0].Member? {
      ReadMemberKinds(node.typ.members, path[0].name);
      assert path[1..] == [] <==> |path| == 1;
    }
  }

  lemma DeclUnfolds(w: World, depth: nat, id: DeclId, path: seq<PathStep>, seen: set<Key>)
    requires w.Closed() && id in w.decls && !w.decls[id].Enum? && path != [] && depth > 0
    ensures
      var v := LookupDecl(w, depth, id, path, seen);
      match Reading(w, Declared(id), path)
      case Leaf(a) => v == Done(a, seen, false)
      case Next(m, rest) => Known(w, m) && v == LookupPath(w, depth - 1, m, rest, seen)
      case AnyOf(nodes, rest) => AllKnown(w, nodes) && v == Merge(LookupAll(w, depth - 1, nodes, rest, seen), false)
      case AllOf(nodes, rest) => false
  {
    match w.decls[id]
    case Alias(t) =>
    case Interface(ms, bases) =>
      if path[0].Member? {
        ReadMemberKinds(ms, path[0].name);
        assert path[1..] == [] <==> |path| == 1;
      }
  }

  /** Each answer of several calls is that of one call, made with some guard in between. */
  lemma {:induction false} AnswerOf(w: World, depth: nat, nodes: seq<Option<Node>>, path: seq<PathStep>,
        seen: set<Key>, i: nat)
    returns (before: set<Key>)
    requires w.Closed() && AllKnown(w, nodes) && i < |nodes| && LookupAll(w, depth, nodes, path, seen).AllDone?
    ensures
      var all := LookupAll(w, depth, nodes, path, seen);
      if nodes[i].None? then all.answers[i] == Unknown
      else
        var v := LookupPath(w, depth, nodes[i].value, path, before);
        v.Done? && v.answer == all.answers[i] && (v.guarded ==> all.guarded)
  {
    if i == 0 {
      before := seen;
    } else {
      var first := if nodes[0].None? then Done(Unknown, seen, false) else LookupPath(w, depth, nodes[0].value,
          path, seen);
      before := AnswerOf(w, depth, nodes[1..], path, first.seen, i - 1);
    }
  }

  // ---- Where reading and meaning part ------------------------------------------------------------------------------

  /**
   Along the walk, by a derivation of height at most `n`, there is a node the walk misreads: a member list with a
   member for the step at hand that the walk does not read as what it is, or a `keyof`.
   */
  ghost predicate MisreadIn(w: World, n: nat, node: Node, path: seq<PathStep>)
    requires w.Closed() && Known(w, node)
    decreases n, 0
  {
    if n == 0 || path == [] then false
    else if Reading(w, node, path) != Meaning(w, node, path) then true
    else
      match Meaning(w, node, path)
      case Leaf(_) => false
      case Next(m, rest) => MisreadIn(w, n - 1, m, rest)
      case AnyOf(nodes, rest) => exists i :: 0 <= i < |nodes| && PartMisread(w, n - 1, nodes[i], rest)
      case AllOf(nodes, rest) => exists i :: 0 <= i < |nodes| && PartMisread(w, n - 1, nodes[i], rest)
  }

  ghost predicate PartMisread(w: World, n: nat, part: Option<Node>, path: seq<PathStep>)
    requires w.Closed() && (part.Some? ==> Known(w, part.value))
    decreases n, 1
  {
    part.Some? && MisreadIn(w, n, part.value, path)
  }

  /** The member list of a misread node, the file it stands in, and the declarations it inherits from. */
  datatype Listing = Listing(file: string, members: seq<TypeMember>, bases: seq<Option<Node>>)

  /** Reading and meaning part in two ways: at a `keyof`, or on the member a list has for the step at hand. */
  ghost function MisreadList(w: World, node: Node, path: seq<PathStep>): (list: Option<Listing>)
    requires w.Closed() && Known(w, node) && path != [] && Reading(w, node, path) != Meaning(w, node, path)
    ensures list.None? ==> node.TypeIn? && node.typ.Operator? && Meaning(w, node, path) == Leaf(Unknown)
    ensures list.Some? ==> path[0].Member? && AllKnown(w, list.value.bases)
  {
    match node
    case Declared(id) => Some(Listing(id.file, w.decls[id].members, Bases(w, id.file, w.decls[id].bases)))
    case TypeIn(file, t) => if t.Literal? then Some(Listing(file, t.members, [])) else None
  }

  /** The two views of a misread list. A literal inherits nothing. */
  lemma MisreadListViews(w: World, node: Node, path: seq<PathStep>)
    requires w.Closed() && Known(w, node) && path != [] && Reading(w, node, path) != Meaning(w, node, path)
    ensures
      var list := MisreadList(w, node, path);
      list.Some? ==>
        var Listing(file, ms, bases), k := list.value, path[0].name;
        && Reading(w, node, path) == OfMember(file, ReadMember(ms, k), path[1..],
          if node.Declared? then AnyOf(bases, path) else Leaf(Missing))
        && Meaning(w, node, path) ==
           match MeantMember(ms, k) {
             case Absent => if node.Declared? then AnyOf(bases, path) else Leaf(Missing)
             case Perhaps => if node.Declared? then AnyOf(bases + [None], path) else Leaf(Unknown)
             case own => OfMember(file, own, path[1..], Leaf(Missing))
           }
        && (node.TypeIn? ==> bases == [])
        && !ReadMember(ms, k).Perhaps?
    ensures
      var read, meant := Reading(w, node, path), Meaning(w, node, path);
      read.AnyOf? && meant.AnyOf? ==> meant.path == read.path && meant.nodes == read.nodes + [None]
  {
    if MisreadList(w, node, path).Some? {
      ReadMemberKinds(MisreadList(w, node, path).value.members, path[0].name);
    }
  }

  /**
   As MisreadIn, and from the misread node on the type may have the rest of the path: the node is a `keyof`, or what the
   list means for the step is an index signature, a member without a type to follow, a property that ends the path or
   whose type may have the rest, or nothing, but a base may have the path.
   */
  ghost predicate HiddenIn(w: World, n: nat, node: Node, path: seq<PathStep>)
    requires w.Closed() && Known(w, node)
    decreases n, 0
  {
    if n == 0 || path == [] then false
    else if Reading(w, node, path) != Meaning(w, node, path) then
      match MisreadList(w, node, path)
      case None => true
      case Some(Listing(file, ms, bases)) =>
        match MeantMember(ms, path[0].name) {
          case Declares(t) => path[1..] == [] || MayHaveIn(w, n - 1, TypeIn(file, t), path[1..])
          case Absent => exists i :: 0 <= i < |bases| && PartMay(w, n - 1, bases[i], path)
          case _ => true
        }
    else
      match Meaning(w, node, path)
      case Leaf(_) => false
      case Next(m, rest) => HiddenIn(w, n - 1, m, rest)
      case AnyOf(nodes, rest) => exists i :: 0 <= i < |nodes| && PartHidden(w, n - 1, nodes[i], rest)
      case AllOf(nodes, rest) => exists i :: 0 <= i < |nodes| && PartHidden(w, n - 1, nodes[i], rest)
  }

  ghost predicate PartHidden(w: World, n: nat, part: Option<Node>, path: seq<PathStep>)
    requires w.Closed() && (part.Some? ==> Known(w, part.value))
    decreases n, 1
  {
    part.Some? && HiddenIn(w, n, part.value, path)
  }

  /**
   From a misread node the answer `found` comes down to the root: no other part of an intersection or base of an
   interface must have the path, while for a union one such branch is enough. A misread node answers wrongly when it is
   a `keyof`, or when its list means a member without a type to follow, or a property whose type need not have the rest,
   or no member while no base must have the path. Where nothing was read for the step either (an index signature) the
   answer came from a base, and is wrong when that base's is.
   */
  ghost predicate OverclaimedIn(w: World, n: nat, node: Node, path: seq<PathStep>)
    requires w.Closed() && Known(w, node)
    decreases n, 0
  {
    if n == 0 || path == [] then false
    else if Reading(w, node, path) != Meaning(w, node, path) then
      match MisreadList(w, node, path)
      case None => true
      case Some(Listing(file, ms, bases)) =>
        match MeantMember(ms, path[0].name) {
          case Declares(t) => path[1..] != [] && !MustHave(w, TypeIn(file, t), path[1..])
          case Untyped => path[1..] != []
          case _ =>
            && (ReadMember(ms, path[0].name).Absent? ==>
                  exists i :: 0 <= i < |bases| && PartOverclaimed(w, n - 1, bases[i], path))
            && forall i | 0 <= i < |bases| :: !PartMustHave(w, bases[i], path)
        }
    else
      match Meaning(w, node, path)
      case Leaf(_) => false
      case Next(m, rest) => OverclaimedIn(w, n - 1, m, rest)
      case AnyOf(nodes, rest) =>
        && (exists i :: 0 <= i < |nodes| && PartOverclaimed(w, n - 1, nodes[i], rest))
        && forall i | 0 <= i < |nodes| :: !PartMustHave(w, nodes[i], rest)
      case AllOf(nodes, rest) => exists i :: 0 <= i < |nodes| && PartOverclaimed(w, n - 1, nodes[i], rest)
  }

  ghost predicate PartOverclaimed(w: World, n: nat, part: Option<Node>, path: seq<PathStep>)
    requires w.Closed() && (part.Some? ==> Known(w, part.value))
    decreases n, 1
  {
    part.Some? && OverclaimedIn(w, n, part.value, path)
  }

  ghost predicate PartMustHave(w: World, part: Option<Node>, path: seq<PathStep>)
    requires w.Closed() && (part.Some? ==> Known(w, part.value))
  {
    part.Some? && MustHave(w, part.value, path)
  }

  ghost predicate Misread(w: World, node: Node, path: seq<PathStep>)
    requires w.Closed() && Known(w, node)
  {
    exists n: nat :: MisreadIn(w, n, node, path)
  }

  ghost predicate Hidden(w: World, node: Node, path: seq<PathStep>)
    requires w.Closed() && Known(w, node)
  {
    exists n: nat :: HiddenIn(w, n, node, path)
  }

  // ---- Soundness ---------------------------------------------------------------------------------------------------

  /**
   Soundness of `found`: whatever the guard already holds, and however recursive the declarations are, the type has the
   path under every union branch, unless the walk crosses a node it misreads.
   */
  lemma {:induction false} FoundIsSound(w: World, depth: nat, node: Node, path: seq<PathStep>, seen: set<Key>)
    requires w.Closed() && Known(w, node)
    requires LookupPath(w, depth, node, path, seen).Done? && LookupPath(w, depth, node, path, seen).answer == Found
    ensures MustHaveIn(w, depth, node, path) || MisreadIn(w, depth, node, path)
  {
    hide LookupPath, LookupAll, Meaning, Reading;
    LookupEnds(w, depth, node, path, seen);
    if path != [] && Reading(w, node, path) == Meaning(w, node, path) {
      LookupUnfolds(w, depth, node, path, seen);
      var inside := Entered(w, node, path, seen);
      match Reading(w, node, path)
      case Leaf(_) =>
      case Next(m, rest) => FoundIsSound(w, depth - 1, m, rest, inside);
      case AnyOf(nodes, rest) =>
        var answers := LookupAll(w, depth - 1, nodes, rest, inside).answers;
        var i :| 0 <= i < |answers| && answers[i] == Found;
        var before := AnswerOf(w, depth - 1, nodes, rest, inside, i);
        FoundIsSound(w, depth - 1, nodes[i].value, rest, before);
      case AllOf(nodes, rest) =>
        forall i | 0 <= i < |nodes|
          ensures PartMust(w, depth - 1, nodes[i], rest) || PartMisread(w, depth - 1, nodes[i], rest)
        {
          var before := AnswerOf(w, depth - 1, nodes, rest, inside, i);
          FoundIsSound(w, depth - 1, nodes[i].value, rest, before);
        }
    }
  }

  // ---- When `found` is wrong ---------------------------------------------------------------------------------------

  lemma {:induction false} HigherDerivation(w: World, n: nat, more: nat, node: Node, path: seq<PathStep>)
    requires w.Closed() && Known(w, node) && MustHaveIn(w, n, node, path) && n <= more
    ensures MustHaveIn(w, more, node, path)
    decreases n
  {
    hide Meaning;
    if path != [] {
      match Meaning(w, node, path)
      case Leaf(_) =>
      case Next(m, rest) => HigherDerivation(w, n - 1, more - 1, m, rest);
      case AnyOf(nodes, rest) =>
        var i :| 0 <= i < |nodes| && PartMust(w, n - 1, nodes[i], rest);
        HigherDerivation(w, n - 1, more - 1, nodes[i].value, rest);
        assert PartMust(w, more - 1, nodes[i], rest);
      case AllOf(nodes, rest) =>
        forall i | 0 <= i < |nodes| ensures PartMust(w, more - 1, nodes[i], rest) {
          assert PartMust(w, n - 1, nodes[i], rest);
          HigherDerivation(w, n - 1, more - 1, nodes[i].value, rest);
        }
    }
  }

  /** Parts that all must have the path have it by derivations of one height. */
  lemma {:induction false} CommonHeight(w: World, nodes: seq<Option<Node>>, path: seq<PathStep>, k: nat)
        returns (n: nat)
    requires w.Closed() && AllKnown(w, nodes) && k <= |nodes|
    requires forall i | 0 <= i < k :: PartMustHave(w, nodes[i], path)
    ensures forall i | 0 <= i < k :: PartMust(w, n, nodes[i], path)
    decreases k
  {
    n := 0;
    if k > 0 {
      hide MustHaveIn;
      var before := CommonHeight(w, nodes, path, k - 1);
      assert PartMustHave(w, nodes[k - 1], path);
      var last: nat :| MustHaveIn(w, last, nodes[k - 1].value, path);
      n := before + last;
      forall i | 0 <= i < k ensures PartMust(w, n, nodes[i], path) {
        HigherDerivation(w, if i < k - 1 then before else last, n, nodes[i].value, path);
      }
    }
  }

  /** What a node must have, told by the nodes one step on. */
  lemma MustHaveUnfolds(w: World, node: Node, path: seq<PathStep>)
    requires w.Closed() && Known(w, node) && path != []
    ensures MustHave(w, node, path) <==>
            match Meaning(w, node, path)
            case Leaf(a) => a == Found
            case Next(m, rest) => MustHave(w, m, rest)
            case AnyOf(nodes, rest) => exists i :: 0 <= i < |nodes| && PartMustHave(w, nodes[i], rest)
            case AllOf(nodes, rest) => forall i | 0 <= i < |nodes| :: PartMustHave(w, nodes[i], rest)
  {
    hide Meaning;
    if n: nat :| MustHaveIn(w, n, node, path) {
      match Meaning(w, node, path)
      case Leaf(_) =>
      case Next(m, rest) => assert MustHaveIn(w, n - 1, m, rest);
      case AnyOf(nodes, rest) =>
        var i :| 0 <= i < |nodes| && PartMust(w, n - 1, nodes[i], rest);
        assert MustHaveIn(w, n - 1, nodes[i].value, rest);
        assert PartMustHave(w, nodes[i], rest);
      case AllOf(nodes, rest) =>
        forall i | 0 <= i < |nodes| ensures PartMustHave(w, nodes[i], rest) {
          assert PartMust(w, n - 1, nodes[i], rest);
          assert MustHaveIn(w, n - 1, nodes[i].value, rest);
        }
    }
    match Meaning(w, node, path)
    case Leaf(a) => assert a == Found ==> MustHaveIn(w, 1, node, path);
    case Next(m, rest) =>
      if k: nat :| MustHaveIn(w, k, m, rest) {
        assert MustHaveIn(w, k + 1, node, path);
      }
    case AnyOf(nodes, rest) =>
      if i :| 0 <= i < |nodes| && PartMustHave(w, nodes[i], rest) {
        var k: nat :| MustHaveIn(w, k, nodes[i].value, rest);
        assert PartMust(w, k, nodes[i], rest);
        assert MustHaveIn(w, k + 1, node, path);
      }
    case AllOf(nodes, rest) =>
      if forall i | 0 <= i < |nodes| :: PartMustHave(w, nodes[i], rest) {
        var k := CommonHeight(w, nodes, rest, |nodes|);
        assert MustHaveIn(w, k + 1, node, path);
      }
  }

  lemma {:induction false} OverclaimedNeedNot(w: World, n: nat, node: Node, path: seq<PathStep>)
    requires w.Closed() && Known(w, node) && OverclaimedIn(w, n, node, path)
    ensures !MustHave(w, node, path)
  {
    hide Meaning, Reading, MustHave, MisreadList;
    MustHaveUnfolds(w, node, path);
    if Reading(w, node, path) == Meaning(w, node, path) {
      match Meaning(w, node, path)
      case Next(m, rest) => OverclaimedNeedNot(w, n - 1, m, rest);
      case AnyOf(nodes, rest) =>
      case AllOf(nodes, rest) =>
        var i :| 0 <= i < |nodes| && PartOverclaimed(w, n - 1, nodes[i], rest);
        OverclaimedNeedNot(w, n - 1, nodes[i].value, rest);
    } else {
      MisreadListViews(w, node, path);
    }
  }

  /** An answer `found` of several calls is one of some, or of all of them. */
  lemma FoundAmong(v: Visits, all: bool)
    requires Merge(v, all).Done? && Merge(v, all).answer == Found
    ensures v.AllDone?
    ensures if all then forall i | 0 <= i < |v.answers| :: v.answers[i] == Found
            else exists i: nat :: i < |v.answers| && v.answers[i] == Found
  {}

  lemma OverclaimedAbove(w: World, n: nat, node: Node, path: seq<PathStep>)
    requires w.Closed() && Known(w, node) && n > 0 && path != []
    requires !MustHave(w, node, path) && Reading(w, node, path) == Meaning(w, node, path)
    requires match Meaning(w, node, path)
             case Leaf(_) => false
             case Next(m, rest) => OverclaimedIn(w, n - 1, m, rest)
             case AnyOf(nodes, rest) => exists i: nat :: i < |nodes| && PartOverclaimed(w, n - 1, nodes[i], rest)
             case AllOf(nodes, rest) => exists i: nat :: i < |nodes| && PartOverclaimed(w, n - 1, nodes[i], rest)
    ensures OverclaimedIn(w, n, node, path)
  {
    MustHaveUnfolds(w, node, path);
    hide Meaning, Reading, MustHave, PartMustHave, PartOverclaimed;
  }

  /** A misread node, of whose bases one is overclaimed if it is both read and meant to have its bases' members. */
  lemma OverclaimedHere(w: World, n: nat, node: Node, path: seq<PathStep>)
    requires w.Closed() && Known(w, node) && n > 0 && path != []
    requires !MustHave(w, node, path) && Reading(w, node, path) != Meaning(w, node, path)
    requires
      match Reading(w, node, path)
      case Leaf(a) => a == Found
      case AnyOf(nodes, rest) =>
        Meaning(w, node, path).AnyOf? ==> exists i: nat :: i < |nodes| && PartOverclaimed(w, n - 1, nodes[i], rest)
      case _ => true
    ensures OverclaimedIn(w, n, node, path)
  {
    MustHaveUnfolds(w, node, path);
    MisreadListViews(w, node, path);
    hide Meaning, Reading, MustHave, PartOverclaimed, MisreadList, ReadMember, MeantMember;
    var list := MisreadList(w, node, path);
    if list.Some? {
      var Listing(_, ms, bases) := list.value;
      if MeantMember(ms, path[0].name).Perhaps? {
        forall i | 0 <= i < |bases| ensures (bases + [None])[i] == bases[i] {}
      }
    }
  }

  /** What the calls one step on answered, when a call that reads its node right answered `found`. */
  lemma FoundOneStepOn(w: World, depth: nat, node: Node, path: seq<PathStep>, seen: set<Key>)
    requires w.Closed() && Known(w, node) && path != []
    requires LookupPath(w, depth, node, path, seen).Done? && LookupPath(w, depth, node, path, seen).answer == Found
    ensures depth > 0
    ensures
      var inside := Entered(w, node, path, seen);
      match Reading(w, node, path)
      case Leaf(a) => a == Found
      case Next(m, rest) =>
        Known(w, m) && LookupPath(w, depth - 1, m, rest, inside) == LookupPath(w, depth, node, path, seen)
      case AnyOf(nodes, rest) =>
        && AllKnown(w, nodes)
        && var v := LookupAll(w, depth - 1, nodes, rest, inside);
           v.AllDone? && exists i: nat :: i < |v.answers| && v.answers[i] == Found
      case AllOf(nodes, rest) =>
        && AllKnown(w, nodes)
        && var v := LookupAll(w, depth - 1, nodes, rest, inside);
           v.AllDone? && forall i | 0 <= i < |v.answers| :: v.answers[i] == Found
  {
    hide LookupPath, LookupAll, Meaning, Reading, Merge;
    LookupEnds(w, depth, node, path, seen);
    LookupUnfolds(w, depth, node, path, seen);
    match Reading(w, node, path)
    case AnyOf(nodes, rest) => FoundAmong(LookupAll(w, depth - 1, nodes, rest, Entered(w, node, path, seen)), false);
    case AllOf(nodes, rest) => FoundAmong(LookupAll(w, depth - 1, nodes, rest, Entered(w, node, path, seen)), true);
    case _ =>
  }

  lemma EmptyPathIsHad(w: World, node: Node)
    requires w.Closed() && Known(w, node)
    ensures MustHave(w, node, [])
  {
    assert MustHaveIn(w, 1, node, []);
  }

  lemma {:induction false} WrongFoundIsOverclaimed(w: World, depth: nat, node: Node, path: seq<PathStep>,
      seen: set<Key>)
    requires w.Closed() && Known(w, node) && !MustHave(w, node, path)
    requires LookupPath(w, depth, node, path, seen).Done? && LookupPath(w, depth, node, path, seen).answer == Found
    ensures OverclaimedIn(w, depth, node, path)
    decreases depth, 0
  {
    hide LookupPath, LookupAll, Meaning, Reading, MustHave, OverclaimedIn, PartOverclaimed, PartMustHave, Entered;
    EmptyPathIsHad(w, node);
    FoundOneStepOn(w, depth, node, path, seen);
    MustHaveUnfolds(w, node, path);
    if Reading(w, node, path) == Meaning(w, node, path) {
      var inside := Entered(w, node, path, seen);
      match Reading(w, node, path) {
        case Leaf(_) =>
        case Next(m, rest) => WrongFoundIsOverclaimed(w, depth - 1, m, rest, inside);
        case AnyOf(nodes, rest) =>
          var v := LookupAll(w, depth - 1, nodes, rest, inside);
          var i: nat :| i < |v.answers| && v.answers[i] == Found;
          WrongPartIsOverclaimed(w, depth - 1, nodes, rest, inside, i);
        case AllOf(nodes, rest) =>
          var i: nat :| i < |nodes| && !PartMustHave(w, nodes[i], rest);
          WrongPartIsOverclaimed(w, depth - 1, nodes, rest, inside, i);
      }
      OverclaimedAbove(w, depth, node, path);
    } else {
      MisreadListViews(w, node, path);
      hide MisreadList, ReadMember, MeantMember, OfMember;
      if Reading(w, node, path).AnyOf? && Meaning(w, node, path).AnyOf? {
        var AnyOf(nodes, rest) := Reading(w, node, path);
        var v := LookupAll(w, depth - 1, nodes, rest, Entered(w, node, path, seen));
        var i: nat :| i < |v.answers| && v.answers[i] == Found;
        assert Meaning(w, node, path).nodes[i] == nodes[i];
        WrongPartIsOverclaimed(w, depth - 1, nodes, rest, Entered(w, node, path, seen), i);
      }
      OverclaimedHere(w, depth, node, path);
    }
  }

  lemma {:induction false} WrongPartIsOverclaimed(w: World, depth: nat, nodes: seq<Option<Node>>,
        path: seq<PathStep>, seen: set<Key>, i: nat)
    requires w.Closed() && AllKnown(w, nodes) && LookupAll(w, depth, nodes, path, seen).AllDone?
    requires i < |nodes| && LookupAll(w, depth, nodes, path, seen).answers[i] == Found
              && !PartMustHave(w, nodes[i], path)
    ensures PartOverclaimed(w, depth, nodes[i], path)
    decreases depth, 1
  {
    hide LookupPath, LookupAll, Meaning, Reading, MustHave, OverclaimedIn;
    var before := AnswerOf(w, depth, nodes, path, seen, i);
    WrongFoundIsOverclaimed(w, depth, nodes[i].value, path, before);
  }

  /**
   Exactly when `found` is wrong, whatever the guard already holds and however recursive the declarations are: the type
   need not have the path if and only if the walk crosses a node it misreads whose wrong answer comes down to the root.
   */
  lemma FoundIsWrongExactlyWhenOverclaimed(w: World, depth: nat, node: Node, path: seq<PathStep>, seen: set<Key>)
    requires w.Closed() && Known(w, node)
    requires LookupPath(w, depth, node, path, seen).Done? && LookupPath(w, depth, node, path, seen).answer == Found
    ensures !MustHave(w, node, path) <==> OverclaimedIn(w, depth, node, path)
  {
    hide *;
    if !MustHave(w, node, path) {
      WrongFoundIsOverclaimed(w, depth, node, path, seen);
    }
    if OverclaimedIn(w, depth, node, path) {
      OverclaimedNeedNot(w, depth, node, path);
    }
  }

  // ---- When `missing` is wrong -------------------------------------------------------------------------------------

  /** At a misread node the list tells whether the type may have the path. */
  lemma MisreadMay(w: World, n: nat, node: Node, path: seq<PathStep>)
    requires w.Closed() && Known(w, node) && path != [] && n > 0
    requires Reading(w, node, path) != Meaning(w, node, path)
    ensures HiddenIn(w, n, node, path) <==> MayHaveIn(w, n, node, path)
  {
    MisreadListViews(w, node, path);
    hide Reading, Meaning, MisreadList, ReadMember, MeantMember;
    var list := MisreadList(w, node, path);
    if list.Some? && MeantMember(list.value.members, path[0].name).Perhaps? && node.Declared? {
      var nodes := list.value.bases + [None];
      assert nodes[|nodes| - 1] == None && PartMay(w, n - 1, nodes[|nodes| - 1], path);
    }
  }

  /**
   When the walk answers `missing`, no branch, base, part or unresolved reference supplies the path: only a member the
   walk does not read, or a `keyof`, still could.
   */
  lemma {:induction false} MissingLeavesHidden(w: World, depth: nat, node: Node, path: seq<PathStep>,
        seen: set<Key>, n: nat)
    requires w.Closed() && Known(w, node)
    requires LookupPath(w, depth, node, path, seen).Done? && LookupPath(w, depth, node, path, seen).answer == Missing
    requires MayHaveIn(w, n, node, path)
    ensures HiddenIn(w, n, node, path)
    decreases depth
  {
    hide LookupPath, LookupAll, Meaning, Reading;
    LookupEnds(w, depth, node, path, seen);
    LookupUnfolds(w, depth, node, path, seen);
    var inside := Entered(w, node, path, seen);
    if Reading(w, node, path) == Meaning(w, node, path) {
      match Reading(w, node, path)
      case Leaf(_) =>
      case Next(m, rest) => MissingLeavesHidden(w, depth - 1, m, rest, inside, n - 1);
      case AnyOf(nodes, rest) =>
        var i :| 0 <= i < |nodes| && PartMay(w, n - 1, nodes[i], rest);
        var before := AnswerOf(w, depth - 1, nodes, rest, inside, i);
        MissingLeavesHidden(w, depth - 1, nodes[i].value, rest, before, n - 1);
      case AllOf(nodes, rest) =>
        var i :| 0 <= i < |nodes| && PartMay(w, n - 1, nodes[i], rest);
        var before := AnswerOf(w, depth - 1, nodes, rest, inside, i);
        MissingLeavesHidden(w, depth - 1, nodes[i].value, rest, before, n - 1);
    } else {
      MisreadMay(w, n, node, path);
    }
  }

  lemma {:induction false} HiddenMay(w: World, n: nat, node: Node, path: seq<PathStep>)
    requires w.Closed() && Known(w, node) && HiddenIn(w, n, node, path)
    ensures MayHaveIn(w, n, node, path)
  {
    hide Meaning, Reading;
    if Reading(w, node, path) == Meaning(w, node, path) {
      match Meaning(w, node, path)
      case Next(m, rest) => HiddenMay(w, n - 1, m, rest);
      case AnyOf(nodes, rest) =>
        var i :| 0 <= i < |nodes| && PartHidden(w, n - 1, nodes[i], rest);
        HiddenMay(w, n - 1, nodes[i].value, rest);
      case AllOf(nodes, rest) =>
        var i :| 0 <= i < |nodes| && PartHidden(w, n - 1, nodes[i], rest);
        HiddenMay(w, n - 1, nodes[i].value, rest);
    } else {
      MisreadMay(w, n, node, path);
    }
  }

  /**
   Exactly when `missing` is wrong: the type may still have the path if and only if the walk crosses a node it misreads
   from which the rest could be supplied.
   */
  lemma MissingIsWrongExactlyWhenHidden(w: World, depth: nat, node: Node, path: seq<PathStep>, seen: set<Key>)
    requires w.Closed() && Known(w, node)
    requires LookupPath(w, depth, node, path, seen).Done? && LookupPath(w, depth, node, path, seen).answer == Missing
    ensures MayHave(w, node, path) <==> Hidden(w, node, path)
  {
    if MayHave(w, node, path) {
      var n: nat :| MayHaveIn(w, n, node, path);
      MissingLeavesHidden(w, depth, node, path, seen, n);
    }
    if Hidden(w, node, path) {
      var n: nat :| HiddenIn(w, n, node, path);
      HiddenMay(w, n, node, path);
    }
  }

  // ---- Away from the guard and from misread nodes the answer is exact ----------------------------------------------

  /** A path the type must have is found, unless the guard answered or the walk misread. */
  lemma {:induction false} MustIsFound(w: World, depth: nat, node: Node, path: seq<PathStep>, seen: set<Key>, n: nat)
    requires w.Closed() && Known(w, node) && MustHaveIn(w, n, node, path)
    requires LookupPath(w, depth, node, path, seen).Done? && !LookupPath(w, depth, node, path, seen).guarded
    ensures LookupPath(w, depth, node, path, seen).answer == Found || MisreadIn(w, depth, node, path)
    decreases depth
  {
    hide LookupPath, LookupAll, Meaning, Reading;
    LookupEnds(w, depth, node, path, seen);
    if path != [] && Reading(w, node, path) == Meaning(w, node, path) {
      LookupUnfolds(w, depth, node, path, seen);
      var inside := Entered(w, node, path, seen);
      match Reading(w, node, path)
      case Leaf(_) =>
      case Next(m, rest) => MustIsFound(w, depth - 1, m, rest, inside, n - 1);
      case AnyOf(nodes, rest) =>
        var i :| 0 <= i < |nodes| && PartMust(w, n - 1, nodes[i], rest);
        var before := AnswerOf(w, depth - 1, nodes, rest, inside, i);
        MustIsFound(w, depth - 1, nodes[i].value, rest, before, n - 1);
      case AllOf(nodes, rest) =>
        var answers := LookupAll(w, depth - 1, nodes, rest, inside).answers;
        if i :| 0 <= i < |nodes| && answers[i] != Found {
          var before := AnswerOf(w, depth - 1, nodes, rest, inside, i);
          MustIsFound(w, depth - 1, nodes[i].value, rest, before, n - 1);
        }
    }
  }

  /** A path not answered `missing` is one the type may have, unless the guard answered or the walk misread. */
  lemma {:induction false} NotMissingMay(w: World, depth: nat, node: Node, path: seq<PathStep>, seen: set<Key>)
    requires w.Closed() && Known(w, node)
    requires LookupPath(w, depth, node, path, seen).Done? && !LookupPath(w, depth, node, path, seen).guarded
    requires LookupPath(w, depth, node, path, seen).answer != Missing
    ensures MayHaveIn(w, depth, node, path) || MisreadIn(w, depth, node, path)
    decreases depth, 0
  {
    hide LookupPath, LookupAll, Meaning, Reading;
    LookupEnds(w, depth, node, path, seen);
    if path != [] && Reading(w, node, path) == Meaning(w, node, path) {
      LookupUnfolds(w, depth, node, path, seen);
      var inside := Entered(w, node, path, seen);
      match Reading(w, node, path)
      case Leaf(_) =>
      case Next(m, rest) => NotMissingMay(w, depth - 1, m, rest, inside);
      case AnyOf(nodes, rest) =>
        var i: nat :| i < |nodes| && LookupAll(w, depth - 1, nodes, rest, inside).answers[i] != Missing;
        SomeNotMissingMay(w, depth - 1, nodes, rest, inside, i);
      case AllOf(nodes, rest) =>
        if nodes != [] {
          var i: nat :| i < |nodes| && LookupAll(w, depth - 1, nodes, rest, inside).answers[i] != Missing;
          SomeNotMissingMay(w, depth - 1, nodes, rest, inside, i);
        }
    }
  }

  lemma {:induction false} SomeNotMissingMay(w: World, depth: nat, nodes: seq<Option<Node>>,
        path: seq<PathStep>, seen: set<Key>, i: nat)
    requires w.Closed() && AllKnown(w, nodes)
    requires LookupAll(w, depth, nodes, path, seen).AllDone? && !LookupAll(w, depth, nodes, path, seen).guarded
    requires i < |nodes| && LookupAll(w, depth, nodes, path, seen).answers[i] != Missing
    ensures PartMay(w, depth, nodes[i], path) || PartMisread(w, depth, nodes[i], path)
    decreases depth, 1
  {
    hide LookupPath, LookupAll, Meaning, Reading;
    var before := AnswerOf(w, depth, nodes, path, seen, i);
    if nodes[i].Some? {
      NotMissingMay(w, depth, nodes[i].value, path, before);
    }
  }

  /**
   Precision: when neither the guard nor a misread node is met, `found` is what the type must have, `missing` is what it
   cannot have, and `unknown` is only what it may have without having to.
   */
  lemma UnguardedIsExact(w: World, depth: nat, node: Node, path: seq<PathStep>, seen: set<Key>)
    requires w.Closed() && Known(w, node) && !Misread(w, node, path)
    requires LookupPath(w, depth, node, path, seen).Done? && !LookupPath(w, depth, node, path, seen).guarded
    ensures LookupPath(w, depth, node, path, seen).answer == Found <==> MustHave(w, node, path)
    ensures LookupPath(w, depth, node, path, seen).answer == Missing <==> !MayHave(w, node, path)
  {
    var answer := LookupPath(w, depth, node, path, seen).answer;
    if MustHave(w, node, path) {
      var n: nat :| MustHaveIn(w, n, node, path);
      MustIsFound(w, depth, node, path, seen, n);
    }
    if answer == Found {
      FoundIsSound(w, depth, node, path, seen);
    }
    if answer == Missing && MayHave(w, node, path) {
      MissingIsWrongExactlyWhenHidden(w, depth, node, path, seen);
      var n: nat :| HiddenIn(w, n, node, path);
      HiddenIsMisread(w, n, node, path);
    }
    if answer != Missing {
      NotMissingMay(w, depth, node, path, seen);
    }
  }

  lemma {:induction false} HiddenIsMisread(w: World, n: nat, node: Node, path: seq<PathStep>)
    requires w.Closed() && Known(w, node) && HiddenIn(w, n, node, path)
    ensures MisreadIn(w, n, node, path)
  {
    hide Meaning, Reading;
    if Reading(w, node, path) == Meaning(w, node, path) {
      match Meaning(w, node, path)
      case Next(m, rest) => HiddenIsMisread(w, n - 1, m, rest);
      case AnyOf(nodes, rest) =>
        var i :| 0 <= i < |nodes| && PartHidden(w, n - 1, nodes[i], rest);
        HiddenIsMisread(w, n - 1, nodes[i].value, rest);
      case AllOf(nodes, rest) =>
        var i :| 0 <= i < |nodes| && PartHidden(w, n - 1, nodes[i], rest);
        HiddenIsMisread(w, n - 1, nodes[i].value, rest);
    }
  }

  // ---- Declarations the walk reads exactly -------------------------------------------------------------------------

  /** Names no quoted spelling equals. */
  predicate Bare(k: string) {
    k == "" || k[0] != '\''
  }

  predicate BarePath(path: seq<PathStep>) {
    forall i | 0 <= i < |path| && path[i].Member? :: Bare(path[i].name)
  }

  predicate SimpleMember(m: TypeMember) {
    m.Property? && m.name.Identifier? && (m.typ.Some? ==> SimpleType(m.typ.value))
  }

  /** Only property signatures with unquoted names in every member list, and no `keyof`. */
  predicate SimpleType(t: Type) {
    match t
    case Literal(ms) => forall i | 0 <= i < |ms| :: SimpleMember(ms[i])
    case Paren(u) => SimpleType(u)
    case Intersection(parts) => forall i | 0 <= i < |parts| :: SimpleType(parts[i])
    case Union(parts) => forall i | 0 <= i < |parts| :: SimpleType(parts[i])
    case ArrayOf(u) => SimpleType(u)
    case Operator(keyof, u) => !keyof && SimpleType(u)
    case Indexed(u, index) => (index.Some? ==> Bare(index.value)) && SimpleType(u)
    case Reference(_, _, args) => forall i | 0 <= i < |args| :: SimpleType(args[i])
    case Opaque => true
  }

  predicate SimpleDecl(d: Decl) {
    match d
    case Enum => true
    case Alias(t) => SimpleType(t)
    case Interface(ms, _) => forall i | 0 <= i < |ms| :: SimpleMember(ms[i])
  }

  predicate SimpleNode(w: World, node: Node) {
    match node
    case Declared(id) => id in w.decls
    case TypeIn(_, t) => SimpleType(t)
  }

  ghost predicate SimpleWorld(w: World) {
    w.Closed() && forall id {:trigger w.decls[id]} | id in w.decls :: SimpleDecl(w.decls[id])
  }

  lemma SimpleListIsRead(ms: seq<TypeMember>, k: string)
    requires forall i | 0 <= i < |ms| :: SimpleMember(ms[i])
    ensures ReadMember(ms, k) == MeantMember(ms, k)
    ensures ReadMember(ms, k).Declares? ==> SimpleType(ReadMember(ms, k).typ)
    ensures !ReadMember(ms, k).Perhaps?
  {
    if ms != [] {
      SimpleListIsRead(ms[1..], k);
    }
  }

  ghost predicate SimpleView(w: World, v: View) {
    match v
    case Leaf(_) => true
    case Next(m, rest) => SimpleNode(w, m) && BarePath(rest)
    case AnyOf(nodes, rest) => BarePath(rest) && forall i | 0 <= i < |nodes| && nodes[i].Some? ::
        SimpleNode(w, nodes[i].value)
    case AllOf(nodes, rest) => BarePath(rest) && forall i | 0 <= i < |nodes| && nodes[i].Some? ::
        SimpleNode(w, nodes[i].value)
  }

  lemma BareTails(k: string, path: seq<PathStep>)
    requires BarePath(path)
    ensures path != [] ==> BarePath(path[1..])
    ensures Bare(k) ==> BarePath([Member(k)] + path)
  {
    var longer := [Member(k)] + path;
    forall i | Bare(k) && 0 <= i < |longer| && longer[i].Member? ensures Bare(longer[i].name) {
      if i > 0 {
        assert longer[i] == path[i - 1];
      }
    }
  }

  lemma SimpleViews(w: World, node: Node, path: seq<PathStep>)
    requires SimpleWorld(w) && SimpleNode(w, node) && BarePath(path) && path != []
    ensures Reading(w, node, path) == Meaning(w, node, path) && SimpleView(w, Meaning(w, node, path))
  {
    BareTails("", path);
    match node
    case Declared(id) =>
      assert SimpleDecl(w.decls[id]);
      match w.decls[id] {
        case Enum =>
        case Alias(t) =>
        case Interface(ms, _) =>
          if path[0].Member? {
            SimpleListIsRead(ms, path[0].name);
          }
      }
    case TypeIn(file, t) =>
      if t.Literal? && path[0].Member? {
        SimpleListIsRead(t.members, path[0].name);
      } else if t.Indexed? && t.index.Some? {
        BareTails(t.index.value, path);
      }
  }

  /** In a world of simple declarations the walk misreads nothing, so the answers above hold without reservation. */
  lemma {:induction false} SimpleIsNotMisread(w: World, n: nat, node: Node, path: seq<PathStep>)
    requires SimpleWorld(w) && SimpleNode(w, node) && BarePath(path)
    ensures !MisreadIn(w, n, node, path)
    decreases n, 0
  {
    hide Meaning, Reading;
    if n > 0 && path != [] {
      SimpleViews(w, node, path);
      match Meaning(w, node, path)
      case Leaf(_) =>
      case Next(m, rest) => SimpleIsNotMisread(w, n - 1, m, rest);
      case AnyOf(nodes, rest) => SimplePartsAreNotMisread(w, n - 1, nodes, rest);
      case AllOf(nodes, rest) => SimplePartsAreNotMisread(w, n - 1, nodes, rest);
    }
  }

  lemma {:induction false} SimplePartsAreNotMisread(w: World, n: nat, nodes: seq<Option<Node>>, path: seq<PathStep>)
    requires SimpleWorld(w) && BarePath(path) && AllKnown(w, nodes)
    requires forall i | 0 <= i < |nodes| && nodes[i].Some? :: SimpleNode(w, nodes[i].value)
    ensures forall i | 0 <= i < |nodes| :: !PartMisread(w, n, nodes[i], path)
    decreases n, 1
  {
    forall i | 0 <= i < |nodes| ensures !PartMisread(w, n, nodes[i], path) {
      if nodes[i].Some? {
        SimpleIsNotMisread(w, n, nodes[i].value, path);
      }
    }
  }

  /** The promise of the check for simple declarations: it never answers `found` or `missing` wrongly. */
  lemma SimpleAnswersAreSound(w: World, depth: nat, node: Node, path: seq<PathStep>, seen: set<Key>)
    requires SimpleWorld(w) && SimpleNode(w, node) && BarePath(path) && LookupPath(w, depth, node, path, seen).Done?
    ensures LookupPath(w, depth, node, path, seen).answer == Found ==> MustHave(w, node, path)
    ensures LookupPath(w, depth, node, path, seen).answer == Missing ==> !MayHave(w, node, path)
  {
    var answer := LookupPath(w, depth, node, path, seen).answer;
    if answer == Found {
      FoundIsSound(w, depth, node, path, seen);
      SimpleIsNotMisread(w, depth, node, path);
    }
    if answer == Missing && MayHave(w, node, path) {
      MissingIsWrongExactlyWhenHidden(w, depth, node, path, seen);
      var n: nat :| HiddenIn(w, n, node, path);
      HiddenIsMisread(w, n, node, path);
      SimpleIsNotMisread(w, n, node, path);
    }
  }

  // ---- Declarations it misreads ------------------------------------------------------------------------------------

  lemma OnlyMember(m: TypeMember, k: string)
    ensures ReadMember([m], k) == if m.Property? && Spelling(m.name) == k then OfProperty(m.typ) else Absent
    ensures MeantMember([m], k) ==
      if m.IndexSignature? then Perhaps
      else if m.name.text != k then Absent
      else if m.Property? then OfProperty(m.typ) else Untyped
  {
    assert [m][1..] == [];
    assert ReadMember([], k) == MeantMember([], k) == Absent;
  }

  /** A method is a member the type has, yet the walk answers that it is missing. */
  lemma MethodReportedMissing(w: World, depth: nat, file: string, k: string, seen: set<Key>)
    requires w.Closed() && depth > 0
    ensures
      var node, path := TypeIn(file, Literal([Method(Identifier(k))])), [Member(k)];
      LookupPath(w, depth, node, path, seen) == Done(Missing, seen, false) && MustHave(w, node, path)
  {
    var ms := [Method(Identifier(k))];
    OnlyMember(ms[0], k);
    assert [Member(k)][1..] == [];
    assert MustHaveIn(w, 1, TypeIn(file, Literal(ms)), [Member(k)]);
  }

  /** So is a property whose name is quoted in the source, unless the key itself carries the quotes. */
  lemma QuotedReportedMissing(w: World, depth: nat, file: string, k: string, t: Type, seen: set<Key>)
    requires w.Closed() && depth > 0
    ensures
      var node, path := TypeIn(file, Literal([Property(Quoted(k), Some(t))])), [Member(k)];
      LookupPath(w, depth, node, path, seen) == Done(Missing, seen, false) && MustHave(w, node, path)
  {
    var ms := [Property(Quoted(k), Some(t))];
    assert |Spelling(Quoted(k))| == |k| + 2;
    OnlyMember(ms[0], k);
    assert [Member(k)][1..] == [];
    assert MustHaveIn(w, 1, TypeIn(file, Literal(ms)), [Member(k)]);
  }

  /** And an index signature, which admits every key. */
  lemma IndexSignatureReportedMissing(w: World, depth: nat, file: string, k: string, seen: set<Key>)
    requires w.Closed() && depth > 0
    ensures
      var node, path := TypeIn(file, Literal([IndexSignature])), [Member(k)];
      LookupPath(w, depth, node, path, seen) == Done(Missing, seen, false) && MayHave(w, node, path)
  {
    var ms := [IndexSignature];
    OnlyMember(ms[0], k);
    assert [Member(k)][1..] == [];
    assert MayHaveIn(w, 1, TypeIn(file, Literal(ms)), [Member(k)]);
  }

  /** A `keyof` is answered by its operand, whose paths it need not have itself. */
  lemma KeyofAnswersForItsOperand(w: World, depth: nat, file: string, t: Type, path: seq<PathStep>, seen: set<Key>)
    requires w.Closed() && depth > 0 && path != []
    ensures
      var node := TypeIn(file, Operator(true, t));
      && LookupPath(w, depth, node, path, seen) == LookupPath(w, depth - 1, TypeIn(file, t), path, seen)
      && !MustHave(w, node, path)
  {
    LookupUnfolds(w, depth, TypeIn(file, Operator(true, t)), path, seen);
  }

  /** On `keyof { k: T }` the key k is answered `found`, although the type need not have such a member. */
  lemma KeyofReportedFound(w: World, depth: nat, file: string, k: string, t: Type, seen: set<Key>)
    requires w.Closed() && depth >= 2
    ensures
      var node, path := TypeIn(file, Operator(true, Literal([Property(Identifier(k), Some(t))]))), [Member(k)];
      LookupPath(w, depth, node, path, seen) == Done(Found, seen, false) && !MustHave(w, node, path)
  {
    var ms, path := [Property(Identifier(k), Some(t))], [Member(k)];
    KeyofAnswersForItsOperand(w, depth, file, Literal(ms), path, seen);
    OnlyMember(ms[0], k);
    assert path[1..] == [];
    assert Reading(w, TypeIn(file, Literal(ms)), path) == Leaf(Found);
    LookupUnfolds(w, depth - 1, TypeIn(file, Literal(ms)), path, seen);
  }
}
