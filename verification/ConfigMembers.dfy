/**
 What the walk makes of a member list, told by the members themselves: which member answers a step, what an interface or
 literal answers, and where a list is misread.
 */
module ConfigMembers {
  import opened Wrappers
  import opened ConfigTypes
  import opened ConfigLookup

  // ---- The member a step finds -------------------------------------------------------------------------------------

  /** A property signature written as the step: bare, or the step with the quotes of the source. */
  predicate SpelledAs(m: TypeMember, k: string) {
    m.Property? && match m.name { case Identifier(text) => text == k case Quoted(text) => "'" + text + "'" == k }
  }

  /** A property or method of that name, quoted or not. */
  predicate NamedAs(m: TypeMember, k: string) {
    !m.IndexSignature? && m.name.text == k
  }

  ghost predicate FirstSpelled(ms: seq<TypeMember>, k: string, j: int) {
    0 <= j < |ms| && SpelledAs(ms[j], k) && forall i | 0 <= i < j :: !SpelledAs(ms[i], k)
  }

  ghost predicate NoneSpelled(ms: seq<TypeMember>, k: string) {
    forall i | 0 <= i < |ms| :: !SpelledAs(ms[i], k)
  }

  ghost predicate FirstNamed(ms: seq<TypeMember>, k: string, j: int) {
    0 <= j < |ms| && NamedAs(ms[j], k) && forall i | 0 <= i < j :: !NamedAs(ms[i], k)
  }

  ghost predicate NoneNamed(ms: seq<TypeMember>, k: string) {
    forall i | 0 <= i < |ms| :: !NamedAs(ms[i], k)
  }

  ghost predicate HasIndexSignature(ms: seq<TypeMember>) {
    exists i :: 0 <= i < |ms| && ms[i].IndexSignature?
  }

  /** The type of a member, if it has one to follow. */
  function TypeOf(m: TypeMember): Option<Type> {
    if m.Property? then m.typ else None
  }

  function OfType(typ: Option<Type>): OwnMember {
    if typ.Some? then Declares(typ.value) else Untyped
  }

  /** Whatever stands before or behind it, the list reads as its first property written as the step. */
  lemma {:induction false} ReadMemberIs(ms: seq<TypeMember>, k: string)
    ensures forall j | FirstSpelled(ms, k, j) :: ReadMember(ms, k) == OfType(ms[j].typ)
    ensures ReadMember(ms, k) == Absent <==> NoneSpelled(ms, k)
    ensures NoneSpelled(ms, k) || exists j :: FirstSpelled(ms, k, j)
    decreases ms
  {
    if ms != [] {
      var rest := ms[1..];
      ReadMemberIs(rest, k);
      if SpelledAs(ms[0], k) {
        assert FirstSpelled(ms, k, 0);
      } else {
        forall j | FirstSpelled(ms, k, j) ensures FirstSpelled(rest, k, j - 1) {
          assert forall i | 0 <= i < j - 1 :: rest[i] == ms[i + 1];
        }
        if j :| FirstSpelled(rest, k, j) {
          assert forall i | 0 < i < j + 1 :: ms[i] == rest[i - 1];
          assert FirstSpelled(ms, k, j + 1);
        } else {
          assert NoneSpelled(ms, k) by {
            assert forall i | 0 < i < |ms| :: ms[i] == rest[i - 1];
          }
        }
      }
    }
  }

  /** A list means its first member of the name, of any kind, and otherwise an index signature if it has one. */
  lemma {:induction false} MeantMemberIs(ms: seq<TypeMember>, k: string)
    ensures forall j | FirstNamed(ms, k, j) :: MeantMember(ms, k) == OfType(TypeOf(ms[j]))
    ensures NoneNamed(ms, k) ==> MeantMember(ms, k) == if HasIndexSignature(ms) then Perhaps else Absent
    ensures NoneNamed(ms, k) || exists j :: FirstNamed(ms, k, j)
    decreases ms
  {
    if ms != [] {
      var rest := ms[1..];
      MeantMemberIs(rest, k);
      assert forall i | 0 < i < |ms| :: ms[i] == rest[i - 1];
      if NamedAs(ms[0], k) {
        assert FirstNamed(ms, k, 0);
      } else {
        forall j | FirstNamed(ms, k, j) ensures FirstNamed(rest, k, j - 1) {
          assert forall i | 0 <= i < j - 1 :: rest[i] == ms[i + 1];
        }
        if j :| FirstNamed(rest, k, j) {
          assert FirstNamed(ms, k, j + 1);
        }
        if HasIndexSignature(ms) && !ms[0].IndexSignature? {
          var i :| 0 <= i < |ms| && ms[i].IndexSignature?;
          assert rest[i - 1].IndexSignature?;
        }
      }
    }
  }

  // ---- What a list answers -----------------------------------------------------------------------------------------

  /** The answer of a member: `found` where the path ends, and behind it whatever its type answers. */
  function MemberAnswer(w: World, depth: nat, file: string, typ: Option<Type>, path: seq<PathStep>, seen: set<Key>):
      Visit
    requires w.Closed() && depth > 0 && path != []
  {
    if |path| == 1 then Done(Found, seen, false)
    else if typ.Some? then LookupPath(w, depth - 1, TypeIn(file, typ.value), path[1..], seen)
    else Done(Unknown, seen, false)
  }

  /** A literal answers by its first property written as the step, whatever stands before it, or `missing`. */
  lemma LiteralAnswers(w: World, depth: nat, file: string, ms: seq<TypeMember>, path: seq<PathStep>, seen: set<Key>)
    requires w.Closed() && depth > 0 && path != [] && path[0].Member?
    ensures
      var v := LookupPath(w, depth, TypeIn(file, Literal(ms)), path, seen);
      && (forall j | FirstSpelled(ms, path[0].name, j) :: v == MemberAnswer(w, depth, file, ms[j].typ, path, seen))
      && (NoneSpelled(ms, path[0].name) ==> v == Done(Missing, seen, false))
  {
    ReadMemberIs(ms, path[0].name);
    hide ReadMember, FirstSpelled, NoneSpelled;
  }

  /**
   So does an interface that is not guarded; without such a property it answers by its bases, in order over one guard:
   `found` if one of them does, else `unknown` if one does or is out of reach, else `missing`.
   */
  lemma InterfaceAnswers(w: World, depth: nat, id: DeclId, path: seq<PathStep>, seen: set<Key>)
    requires w.Closed() && depth > 0 && path != [] && path[0].Member?
    requires id in w.decls && w.decls[id].Interface? && Key(id, |path|) !in seen
    ensures
      var v, inside := LookupPath(w, depth, Declared(id), path, seen), seen + {Key(id, |path|)};
      var Interface(ms, bases) := w.decls[id];
      && (forall j | FirstSpelled(ms, path[0].name, j) :: v == MemberAnswer(w, depth, id.file, ms[j].typ, path, inside))
      && (NoneSpelled(ms, path[0].name) ==>
            var all := LookupAll(w, depth - 1, Bases(w, id.file, bases), path, inside);
            if all.SomeOverflow? then v == Overflow
            else
              && v.Done? && v.seen == all.seen
              && (v.answer == Found <==> exists i :: 0 <= i < |bases| && all.answers[i] == Found)
              && (v.answer == Missing <==> forall i | 0 <= i < |bases| :: all.answers[i] == Missing))
  {
    var Interface(ms, bases) := w.decls[id];
    ReadMemberIs(ms, path[0].name);
    var all := LookupAll(w, depth - 1, Bases(w, id.file, bases), path, seen + {Key(id, |path|)});
    if all.AllDone? {
      CombineIs(all.answers);
    }
    hide ReadMember, FirstSpelled, NoneSpelled, LookupAll, Combine;
    DeclAnswers(w, depth, id, path, seen + {Key(id, |path|)});
    assert LookupPath(w, depth, Declared(id), path, seen) == LookupDecl(w, depth, id, path, seen + {Key(id, |path|)});
  }

  lemma DeclAnswers(w: World, depth: nat, id: DeclId, path: seq<PathStep>, seen: set<Key>)
    requires w.Closed() && depth > 0 && path != [] && path[0].Member? && id in w.decls && w.decls[id].Interface?
    ensures
      var Interface(ms, bases) := w.decls[id];
      var read := ReadMember(ms, path[0].name);
      LookupDecl(w, depth, id, path, seen) ==
        if read.Declares? then MemberAnswer(w, depth, id.file, Some(read.typ), path, seen)
        else if read.Untyped? then MemberAnswer(w, depth, id.file, None, path, seen)
        else Merge(LookupAll(w, depth - 1, Bases(w, id.file, bases), path, seen), false)
  {
    hide LookupPath, LookupAll, ReadMember;
  }

  lemma CombineIs(answers: seq<Answer>)
    ensures Combine(answers) == Found <==> exists i :: 0 <= i < |answers| && answers[i] == Found
    ensures Combine(answers) == Missing <==> forall i | 0 <= i < |answers| :: answers[i] == Missing
  {}

  /** On a one-step path a list with such a property answers `found`: methods before it do not matter. */
  lemma WrittenPropertyIsFound(w: World, depth: nat, node: Node, ms: seq<TypeMember>, k: string, j: nat,
      seen: set<Key>)
    requires w.Closed() && Known(w, node) && depth > 0 && j < |ms| && SpelledAs(ms[j], k)
    requires
      match node
      case Declared(id) => w.decls[id].Interface? && w.decls[id].members == ms && Key(id, 1) !in seen
      case TypeIn(_, t) => t == Literal(ms)
    ensures LookupPath(w, depth, node, [Member(k)], seen).Done?
    ensures LookupPath(w, depth, node, [Member(k)], seen).answer == Found
  {
    hide LookupPath;
    ReadMemberIs(ms, k);
    match node
    case Declared(id) => InterfaceAnswers(w, depth, id, [Member(k)], seen);
    case TypeIn(file, t) => LiteralAnswers(w, depth, file, ms, [Member(k)], seen);
  }

  // ---- What a reference answers ------------------------------------------------------------------------------------

  /**
   The four wrappers pass through to their argument, the two arrays to their element on an array step; any other plain
   name is the declaration the scope resolves it to, and a name it does not resolve is unknown.
   */
  lemma ReferenceAnswers(w: World, depth: nat, file: string, name: string, qualified: bool, args: seq<Type>,
      path: seq<PathStep>, seen: set<Key>)
    requires w.Closed() && depth > 0 && path != []
    ensures
      var v := LookupPath(w, depth, TypeIn(file, Reference(name, qualified, args)), path, seen);
      if args != [] && (name == "Partial" || name == "Required" || name == "Readonly" || name == "NonNullable") then
        v == LookupPath(w, depth - 1, TypeIn(file, args[0]), path, seen)
      else if args != [] && (name == "Array" || name == "ReadonlyArray") then
        v == if path[0] == ArrayHop then LookupPath(w, depth - 1, TypeIn(file, args[0]), path[1..], seen)
             else Done(Unknown, seen, false)
      else if !qualified && Scoped(file, name) in w.scope then
        v == LookupPath(w, depth - 1, Declared(w.scope[Scoped(file, name)]), path, seen)
      else v == Done(Unknown, seen, false)
  {}

  // ---- What the other types answer ---------------------------------------------------------------------------------

  /**
   An intersection has what some part has, and lacks what every part lacks; a union has what every branch has, and lacks
   what every branch lacks, if it has branches at all. Each part is asked in turn over the one guard.
   */
  lemma PartsAnswer(w: World, depth: nat, file: string, parts: seq<Type>, path: seq<PathStep>, seen: set<Key>)
    requires w.Closed() && depth > 0 && path != []
    ensures
      var all := LookupAll(w, depth - 1, TypesIn(file, parts), path, seen);
      var both := LookupPath(w, depth, TypeIn(file, Intersection(parts)), path, seen);
      var either := LookupPath(w, depth, TypeIn(file, Union(parts)), path, seen);
      if all.SomeOverflow? then both == either == Overflow
      else
        && both.Done? && either.Done? && both.seen == either.seen == all.seen && |all.answers| == |parts|
        && (both.answer == Found <==> exists i :: 0 <= i < |parts| && all.answers[i] == Found)
        && (both.answer == Missing <==> forall i | 0 <= i < |parts| :: all.answers[i] == Missing)
        && (either.answer == Found <==> forall i | 0 <= i < |parts| :: all.answers[i] == Found)
        && (either.answer == Missing <==> parts != [] && forall i | 0 <= i < |parts| :: all.answers[i] == Missing)
  {
    var all := LookupAll(w, depth - 1, TypesIn(file, parts), path, seen);
    if all.AllDone? {
      CombineIs(all.answers);
      AgreeIs(all.answers);
      assert LookupPath(w, depth, TypeIn(file, Intersection(parts)), path, seen) == Merge(all, false);
      assert LookupPath(w, depth, TypeIn(file, Union(parts)), path, seen) == Merge(all, true);
    }
    hide LookupAll, LookupPath, Combine, Agree;
  }

  lemma AgreeIs(answers: seq<Answer>)
    ensures Agree(answers) == Found <==> forall i | 0 <= i < |answers| :: answers[i] == Found
    ensures Agree(answers) == Missing <==> answers != [] && forall i | 0 <= i < |answers| :: answers[i] == Missing
  {
    assert answers != [] && answers[0] == Missing ==> !forall i | 0 <= i < |answers| :: answers[i] == Found;
  }

  /** The types with one type inside, an alias, an enum, and what the guard and an array step do. */
  lemma InnerAnswers(w: World, depth: nat, file: string, u: Type, path: seq<PathStep>, seen: set<Key>)
    requires w.Closed() && depth > 0 && path != []
    ensures
      var inner := LookupPath(w, depth - 1, TypeIn(file, u), path, seen);
      && LookupPath(w, depth, TypeIn(file, Paren(u)), path, seen) == inner
      && (forall keyof :: LookupPath(w, depth, TypeIn(file, Operator(keyof, u)), path, seen) == inner)
    ensures LookupPath(w, depth, TypeIn(file, ArrayOf(u)), path, seen)
            == if path[0] == ArrayHop then LookupPath(w, depth - 1, TypeIn(file, u), path[1..], seen)
               else Done(Unknown, seen, false)
    ensures forall k :: LookupPath(w, depth, TypeIn(file, Indexed(u, Some(k))), path, seen)
                        == LookupPath(w, depth - 1, TypeIn(file, u), [Member(k)] + path, seen)
    ensures LookupPath(w, depth, TypeIn(file, Indexed(u, None)), path, seen) == Done(Unknown, seen, false)
    ensures LookupPath(w, depth, TypeIn(file, Opaque), path, seen) == Done(Unknown, seen, false)
  {}

  lemma DeclarationAnswers(w: World, depth: nat, id: DeclId, path: seq<PathStep>, seen: set<Key>)
    requires w.Closed() && depth > 0 && path != [] && id in w.decls
    ensures
      var v := LookupPath(w, depth, Declared(id), path, seen);
      if w.decls[id].Enum? then v == Done(Unknown, seen, false)
      else if Key(id, |path|) in seen then v == Done(Unknown, seen, true)
      else if w.decls[id].Alias? then
        v == LookupPath(w, depth - 1, TypeIn(id.file, w.decls[id].typ), path, seen + {Key(id, |path|)})
      else path[0] == ArrayHop ==> v == Done(Unknown, seen + {Key(id, |path|)}, false)
  {
    hide LookupAll, ReadMember;
  }

  // ---- Where a list is misread -------------------------------------------------------------------------------------

  ghost predicate MisreadHere(w: World, node: Node, path: seq<PathStep>)
    requires w.Closed() && Known(w, node) && path != []
  {
    Reading(w, node, path) != Meaning(w, node, path)
  }

  /**
   A list is misread for a step in three cases: it has no property written as the step, yet a method or quoted property
   of that name or an index signature; it has one, but the first member of that name has another type and the path
   goes on; or it has one and no member of that name, save that in a literal an index signature and a property without a
   type tell the same of the rest of the path.
   */
  ghost predicate ListMisread(ms: seq<TypeMember>, literal: bool, k: string, ends: bool) {
    || (NoneSpelled(ms, k) && !(NoneNamed(ms, k) && !HasIndexSignature(ms)))
    || (exists i, j :: FirstSpelled(ms, k, i) && FirstNamed(ms, k, j) && !ends && TypeOf(ms[i]) != TypeOf(ms[j]))
    || (exists i :: FirstSpelled(ms, k, i) && NoneNamed(ms, k)
          && !(literal && HasIndexSignature(ms) && !ends && ms[i].typ == None))
  }

  /** The walk misreads a node exactly at a `keyof` and at a list misread for the step. */
  lemma MisreadExactly(w: World, node: Node, path: seq<PathStep>)
    requires w.Closed() && Known(w, node) && path != []
    ensures MisreadHere(w, node, path) <==>
            match node
            case Declared(id) =>
              w.decls[id].Interface? && path[0].Member?
              && ListMisread(w.decls[id].members, false, path[0].name, |path| == 1)
            case TypeIn(_, t) =>
              || (t.Operator? && t.keyof)
              || (t.Literal? && path[0].Member? && ListMisread(t.members, true, path[0].name, |path| == 1))
  {
    hide ListMisread, ReadMember, MeantMember;
    match node
    case Declared(id) =>
      if w.decls[id].Interface? && path[0].Member? {
        var Interface(ms, bases) := w.decls[id];
        ListMisreadIs(id.file, ms, false, path[0].name, path[1..], AnyOf(Bases(w, id.file, bases), path));
      }
    case TypeIn(file, t) =>
      if t.Literal? && path[0].Member? {
        ListMisreadIs(file, t.members, true, path[0].name, path[1..], Leaf(Missing));
      }
  }

  lemma ListMisreadIs(file: string, ms: seq<TypeMember>, literal: bool, k: string, rest: seq<PathStep>, otherwise: View)
    requires if literal then otherwise == Leaf(Missing) else otherwise.AnyOf?
    ensures
      var meant := MeantMember(ms, k);
      OfMember(file, ReadMember(ms, k), rest, otherwise)
        != (if meant.Perhaps? && !literal then AnyOf(otherwise.nodes + [None], otherwise.path)
            else OfMember(file, meant, rest, otherwise))
      <==> ListMisread(ms, literal, k, rest == [])
  {
    ReadMemberIs(ms, k);
    MeantMemberIs(ms, k);
    hide ReadMember, MeantMember, NoneSpelled, NoneNamed, FirstSpelled, FirstNamed, HasIndexSignature;
    assert otherwise.AnyOf? ==> |otherwise.nodes + [None]| != |otherwise.nodes|;
    if i :| FirstSpelled(ms, k, i) {
      if j :| FirstNamed(ms, k, j) {
        OneFirst(ms, k, i, j);
      } else {
        OneFirst(ms, k, i, -1);
      }
    } else if j :| FirstNamed(ms, k, j) {
      NamedIsNotNone(ms, k, j);
    }
  }

  lemma NamedIsNotNone(ms: seq<TypeMember>, k: string, j: int)
    requires FirstNamed(ms, k, j)
    ensures !NoneNamed(ms, k)
  {}

  lemma OneFirst(ms: seq<TypeMember>, k: string, i: int, j: int)
    requires FirstSpelled(ms, k, i)
    ensures 0 <= i < |ms| && ms[i].Property?
    ensures !NoneSpelled(ms, k) && forall i' | FirstSpelled(ms, k, i') :: i' == i
    ensures FirstNamed(ms, k, j) ==> !NoneNamed(ms, k) && forall j' | FirstNamed(ms, k, j') :: j' == j
  {}
}
