/** The walk as the generator runs it: recursive calls that share one mutable guard. */
module ConfigWalk {
  import opened Wrappers
  import opened ConfigTypes
  import opened ConfigLookup

  /** A call's outcome and the guard after it are those of the specification; None is an exhausted stack. */
  ghost predicate Ends(v: Visit, answer: Option<Answer>, seen: set<Key>) {
    match v
    case Done(a, s, _) => answer == Some(a) && seen == s
    case Overflow => answer == None
  }

  ghost predicate AllEnd(v: Visits, answers: Option<seq<Answer>>, seen: set<Key>) {
    match v
    case AllDone(a, s, _) => answers == Some(a) && seen == s
    case SomeOverflow => answers == None
  }

  /** The calls on the remaining nodes put after answers already given. */
  function After(answers: seq<Answer>, guarded: bool, rest: Visits): Visits {
    if rest.SomeOverflow? then SomeOverflow else AllDone(answers + rest.answers, rest.seen, guarded || rest.guarded)
  }

  class Walk {
    const w: World
    var seen: set<Key>

    constructor (w: World)
      ensures this.w == w && seen == {}
    {
      this.w, seen := w, {};
    }

    method Lookup(depth: nat, node: Node, path: seq<PathStep>) returns (answer: Option<Answer>)
      requires w.Closed() && Known(w, node)
      modifies this
      ensures Ends(LookupPath(w, depth, node, path, old(seen)), answer, seen)
      decreases depth, 0
    {
      if depth == 0 {
        return None;
      }
      if |path| == 0 {
        return Some(Found);
      }
      match node
      case Declared(id) =>
        if w.decls[id].Enum? {
          return Some(Unknown);
        }
        if Key(id, |path|) in seen {
          return Some(Unknown);
        }
        seen := seen + {Key(id, |path|)};
        answer := LookupDeclaration(depth, id, path);
      case TypeIn(file, t) => answer := LookupNode(depth, file, t, path);
    }

    method LookupDeclaration(depth: nat, id: DeclId, path: seq<PathStep>) returns (answer: Option<Answer>)
      requires w.Closed() && id in w.decls && !w.decls[id].Enum? && depth > 0 && path != []
      modifies this
      ensures Ends(LookupDecl(w, depth, id, path, old(seen)), answer, seen)
      decreases depth - 1, 3
    {
      match w.decls[id]
      case Alias(t) => answer := Lookup(depth - 1, TypeIn(id.file, t), path);
      case Interface(ms, bases) =>
        if path[0].ArrayHop? {
          return Some(Unknown);
        }
        match ReadMember(ms, path[0].name)
        case Declares(u) => answer := LookupMember(depth, id.file, u, path);
        case Untyped => answer := Some(if |path| == 1 then Found else Unknown);
        case _ =>
          var answers := LookupParts(depth - 1, Bases(w, id.file, bases), path);
          answer := if answers.None? then None else Some(Combine(answers.value));
    }

    method LookupNode(depth: nat, file: string, t: Type, path: seq<PathStep>) returns (answer: Option<Answer>)
      requires w.Closed() && depth > 0 && path != []
      modifies this
      ensures Ends(LookupPath(w, depth, TypeIn(file, t), path, old(seen)), answer, seen)
      decreases depth - 1, 3
    {
      match t
      case Literal(ms) =>
        if path[0].ArrayHop? {
          return Some(Unknown);
        }
        match ReadMember(ms, path[0].name) {
          case Declares(u) => answer := LookupMember(depth, file, u, path);
          case Untyped => answer := Some(if |path| == 1 then Found else Unknown);
          case _ => answer := Some(Missing);
        }
      case Paren(u) => answer := Lookup(depth - 1, TypeIn(file, u), path);
      case Intersection(parts) =>
        var answers := LookupParts(depth - 1, TypesIn(file, parts), path);
        answer := if answers.None? then None else Some(Combine(answers.value));
      case Union(parts) =>
        var answers := LookupParts(depth - 1, TypesIn(file, parts), path);
        answer := if answers.None? then None else Some(Agree(answers.value));
      case ArrayOf(u) =>
        if path[0].ArrayHop? {
          answer := Lookup(depth - 1, TypeIn(file, u), path[1..]);
        } else {
          answer := Some(Unknown);
        }
      case Operator(_, u) => answer := Lookup(depth - 1, TypeIn(file, u), path);
      case Indexed(u, index) =>
        if index.Some? {
          answer := Lookup(depth - 1, TypeIn(file, u), [Member(index.value)] + path);
        } else {
          answer := Some(Unknown);
        }
      case Reference(name, qualified, args) =>
        if IsPassthrough(name) && args != [] {
          answer := Lookup(depth - 1, TypeIn(file, args[0]), path);
        } else if IsArrayName(name) && args != [] {
          if path[0].ArrayHop? {
            answer := Lookup(depth - 1, TypeIn(file, args[0]), path[1..]);
          } else {
            answer := Some(Unknown);
          }
        } else if qualified || Resolve(w, file, name).None? {
          answer := Some(Unknown);
        } else {
          answer := Lookup(depth - 1, Resolve(w, file, name).value, path);
        }
      case Opaque => answer := Some(Unknown);
    }

    method LookupMember(depth: nat, file: string, t: Type, path: seq<PathStep>) returns (answer: Option<Answer>)
      requires w.Closed() && depth > 0 && path != []
      modifies this
      ensures Ends(LookupProperty(w, depth, file, t, path, old(seen)), answer, seen)
      decreases depth - 1, 2
    {
      if |path| == 1 {
        return Some(Found);
      }
      answer := Lookup(depth - 1, TypeIn(file, t), path[1..]);
    }

    /** The calls on all the parts, one after another over the same guard. */
    method LookupParts(depth: nat, nodes: seq<Option<Node>>, path: seq<PathStep>) returns (answers: Option<seq<Answer>>)
      requires w.Closed() && AllKnown(w, nodes)
      modifies this
      ensures AllEnd(LookupAll(w, depth, nodes, path, old(seen)), answers, seen)
      decreases depth, 1
    {
      var given: seq<Answer> := [];
      ghost var guarded := false;
      for k := 0 to |nodes|
        invariant LookupAll(w, depth, nodes, path, old(seen))
                  == After(given, guarded, LookupAll(w, depth, nodes[k..], path, seen))
      {
        assert nodes[k..][1..] == nodes[k + 1..];
        var answer := Some(Unknown);
        ghost var v := Done(Unknown, seen, false);
        if nodes[k].Some? {
          v := LookupPath(w, depth, nodes[k].value, path, seen);
          answer := Lookup(depth, nodes[k].value, path);
        }
        if answer.None? {
          return None;
        }
        given := given + [answer.value];
        guarded := guarded || v.guarded;
      }
      assert nodes[|nodes|..] == [] && given + [] == given;
      return Some(given);
    }
  }
}
