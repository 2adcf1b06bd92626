/**
 Declared configuration types as the catalog generator sees them: parsed declarations of a finite set of files, the
 scope that resolves a type name seen from a file, and what it means for a type to have a schema key path.
 */
module ConfigTypes {
  import opened Wrappers

  datatype PathStep = Member(name: string) | ArrayHop

  /** A member name with its spelling in the source: bare, or inside quotes. */
  datatype PropName = Identifier(text: string) | Quoted(text: string)

  datatype TypeMember =
    | Property(name: PropName, typ: Option<Type>)
    | Method(name: PropName)
    | IndexSignature

  /** A type node; `Opaque` is every form the walk has no case for. */
  datatype Type =
    | Literal(members: seq<TypeMember>)
    | Paren(inner: Type)
    | Intersection(parts: seq<Type>)
    | Union(parts: seq<Type>)
    | ArrayOf(elem: Type)
    | Operator(keyof: bool, inner: Type)
    | Indexed(object: Type, index: Option<string>)
    | Reference(name: string, qualified: bool, args: seq<Type>)
    | Opaque

  /** A declaration; a heritage clause entry that is not a plain identifier is None. */
  datatype Decl =
    | Interface(members: seq<TypeMember>, bases: seq<Option<string>>)
    | Alias(typ: Type)
    | Enum

  datatype DeclId = DeclId(file: string, pos: nat)

  datatype Scoped = Scoped(file: string, name: string)

  /** The declarations by position, and the declaration each name resolves to from each file, where it resolves. */
  datatype World = World(decls: map<DeclId, Decl>, scope: map<Scoped, DeclId>) {
    ghost predicate Closed() {
      forall s {:trigger scope[s]} | s in scope :: scope[s] in decls
    }
  }

  datatype Node = Declared(id: DeclId) | TypeIn(file: string, typ: Type)

  ghost predicate Known(w: World, node: Node) {
    node.Declared? ==> node.id in w.decls
  }

  // ---- Members -----------------------------------------------------------------------------------------------------

  datatype OwnMember = Absent | Declares(typ: Type) | Untyped | Perhaps

  function Spelling(n: PropName): string {
    match n
    case Identifier(text) => text
    case Quoted(text) => "'" + text + "'"
  }

  function OfProperty(typ: Option<Type>): OwnMember {
    match typ
    case Some(t) => Declares(t)
    case None => Untyped
  }

  /** What the walk reads: the first property signature whose source spelling is the step. */
  function ReadMember(ms: seq<TypeMember>, k: string): OwnMember {
    if ms == [] then Absent
    else if ms[0].Property? && Spelling(ms[0].name) == k then OfProperty(ms[0].typ)
    else ReadMember(ms[1..], k)
  }

  /** What the members mean: the first member named `k`, of any kind, and otherwise an index signature. */
  function MeantMember(ms: seq<TypeMember>, k: string): OwnMember {
    if ms == [] then Absent
    else if ms[0].IndexSignature? then
      var rest := MeantMember(ms[1..], k);
      if rest.Absent? then Perhaps else rest
    else if ms[0].name.text == k then (if ms[0].Property? then OfProperty(ms[0].typ) else Untyped)
    else MeantMember(ms[1..], k)
  }

  // ---- Names -------------------------------------------------------------------------------------------------------

  predicate IsPassthrough(name: string) {
    name in {"Partial", "Required", "Readonly", "NonNullable"}
  }

  predicate IsArrayName(name: string) {
    name in {"Array", "ReadonlyArray"}
  }

  function Resolve(w: World, file: string, name: string): Option<Node> {
    if Scoped(file, name) in w.scope then Some(Declared(w.scope[Scoped(file, name)])) else None
  }

  /** The declarations an interface extends, None where the heritage entry is out of reach. */
  function Bases(w: World, file: string, bases: seq<Option<string>>): (nodes: seq<Option<Node>>)
    ensures |nodes| == |bases|
    ensures forall i | 0 <= i < |bases| ::
              nodes[i] == if bases[i].Some? then Resolve(w, file, bases[i].value) else None
  {
    if bases == [] then []
    else [if bases[0].Some? then Resolve(w, file, bases[0].value) else None] + Bases(w, file, bases[1..])
  }

  function TypesIn(file: string, parts: seq<Type>): (nodes: seq<Option<Node>>)
    ensures |nodes| == |parts|
    ensures forall i | 0 <= i < |parts| :: nodes[i] == Some(TypeIn(file, parts[i]))
  {
    if parts == [] then [] else [Some(TypeIn(file, parts[0]))] + TypesIn(file, parts[1..])
  }

  // ---- What a type has ---------------------------------------------------------------------------------------------

  /** What is known of a path: definitely present, definitely absent, or neither. */
  datatype Answer = Found | Missing | Unknown

  /** One step of deciding a path: an answer, another node to ask, or several of which some or all must supply it. */
  datatype View =
    | Leaf(answer: Answer)
    | Next(node: Node, path: seq<PathStep>)
    | AnyOf(nodes: seq<Option<Node>>, path: seq<PathStep>)
    | AllOf(nodes: seq<Option<Node>>, path: seq<PathStep>)

  ghost predicate AllKnown(w: World, nodes: seq<Option<Node>>) {
    forall i | 0 <= i < |nodes| && nodes[i].Some? :: Known(w, nodes[i].value)
  }

  ghost predicate ViewKnown(w: World, v: View) {
    match v
    case Leaf(_) => true
    case Next(m, _) => Known(w, m)
    case AnyOf(nodes, _) => AllKnown(w, nodes)
    case AllOf(nodes, _) => AllKnown(w, nodes)
  }

  function OfMember(file: string, own: OwnMember, rest: seq<PathStep>, otherwise: View): View {
    match own
    case Declares(t) => if rest == [] then Leaf(Found) else Next(TypeIn(file, t), rest)
    case Untyped => Leaf(if rest == [] then Found else Unknown)
    case Perhaps => Leaf(Unknown)
    case Absent => otherwise
  }

  /**
   What a non-empty path means for a node. An own member hides an inherited one; an index signature may supply any
   member but promises none; nothing is known of what `keyof` yields or of a type that cannot be enumerated.
   */
  function Meaning(w: World, node: Node, path: seq<PathStep>): (v: View)
    requires w.Closed() && Known(w, node) && path != []
    ensures ViewKnown(w, v)
  {
    match node
    case Declared(id) =>
      match w.decls[id] {
        case Enum => Leaf(Unknown)
        case Alias(t) => Next(TypeIn(id.file, t), path)
        case Interface(ms, bases) =>
          if path[0].ArrayHop? then Leaf(Unknown)
          else
            var own := MeantMember(ms, path[0].name);
            if own.Perhaps? then AnyOf(Bases(w, id.file, bases) + [None], path)
            else OfMember(id.file, own, path[1..], AnyOf(Bases(w, id.file, bases), path))
      }
    case TypeIn(file, t) =>
      match t {
        case Literal(ms) =>
          if path[0].ArrayHop? then Leaf(Unknown)
          else OfMember(file, MeantMember(ms, path[0].name), path[1..], Leaf(Missing))
        case Paren(u) => Next(TypeIn(file, u), path)
        case Intersection(parts) => AnyOf(TypesIn(file, parts), path)
        case Union(parts) => AllOf(TypesIn(file, parts), path)
        case ArrayOf(u) => if path[0].ArrayHop? then Next(TypeIn(file, u), path[1..]) else Leaf(Unknown)
        case Operator(keyof, u) => if keyof then Leaf(Unknown) else Next(TypeIn(file, u), path)
        case Indexed(u, index) =>
          if index.Some? then Next(TypeIn(file, u), [Member(index.value)] + path) else Leaf(Unknown)
        case Reference(name, qualified, args) =>
          if IsPassthrough(name) && args != [] then Next(TypeIn(file, args[0]), path)
          else if IsArrayName(name) && args != [] then
            if path[0].ArrayHop? then Next(TypeIn(file, args[0]), path[1..]) else Leaf(Unknown)
          else if qualified || Resolve(w, file, name).None? then Leaf(Unknown)
          else Next(Resolve(w, file, name).value, path)
        case Opaque => Leaf(Unknown)
      }
  }

  /** `node` definitely has the path, by a derivation of height at most `n`: every branch of a union supplies it. */
  ghost predicate MustHaveIn(w: World, n: nat, node: Node, path: seq<PathStep>)
    requires w.Closed() && Known(w, node)
    decreases n, 0
  {
    if n == 0 then false
    else if path == [] then true
    else
      match Meaning(w, node, path)
      case Leaf(a) => a == Found
      case Next(m, rest) => MustHaveIn(w, n - 1, m, rest)
      case AnyOf(nodes, rest) => exists i :: 0 <= i < |nodes| && PartMust(w, n - 1, nodes[i], rest)
      case AllOf(nodes, rest) => forall i | 0 <= i < |nodes| :: PartMust(w, n - 1, nodes[i], rest)
  }

  ghost predicate PartMust(w: World, n: nat, part: Option<Node>, path: seq<PathStep>)
    requires w.Closed() && (part.Some? ==> Known(w, part.value))
    decreases n, 1
  {
    part.Some? && MustHaveIn(w, n, part.value, path)
  }

  /**
   `node` could have the path, by a derivation of height at most `n`: some branch could, or nothing is known of it.
   */
  ghost predicate MayHaveIn(w: World, n: nat, node: Node, path: seq<PathStep>)
    requires w.Closed() && Known(w, node)
    decreases n, 0
  {
    if n == 0 then false
    else if path == [] then true
    else
      match Meaning(w, node, path)
      case Leaf(a) => a != Missing
      case Next(m, rest) => MayHaveIn(w, n - 1, m, rest)
      case AnyOf(nodes, rest) => exists i :: 0 <= i < |nodes| && PartMay(w, n - 1, nodes[i], rest)
      case AllOf(nodes, rest) => nodes == [] || exists i :: 0 <= i < |nodes| && PartMay(w, n - 1, nodes[i], rest)
  }

  ghost predicate PartMay(w: World, n: nat, part: Option<Node>, path: seq<PathStep>)
    requires w.Closed() && (part.Some? ==> Known(w, part.value))
    decreases n, 1
  {
    part.None? || MayHaveIn(w, n, part.value, path)
  }

  ghost predicate MustHave(w: World, node: Node, path: seq<PathStep>)
    requires w.Closed() && Known(w, node)
  {
    exists n: nat :: MustHaveIn(w, n, node, path)
  }

  ghost predicate MayHave(w: World, node: Node, path: seq<PathStep>)
    requires w.Closed() && Known(w, node)
  {
    exists n: nat :: MayHaveIn(w, n, node, path)
  }
}
