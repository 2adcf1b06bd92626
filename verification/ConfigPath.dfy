/** Config key paths: dotted member names, each followed by a pair of brackets for every array it passes through. */
module ConfigPath {
  import opened Strings
  import opened ConfigTypes

  const BRACKETS := "[]"

  /** A member name and how many arrays follow it. */
  datatype Segment = Segment(name: string, arrays: nat)

  predicate EndsInBrackets(s: string) {
    |s| >= 2 && s[|s| - 2..] == BRACKETS
  }

  function Brackets(n: nat): string {
    if n == 0 then "" else Brackets(n - 1) + BRACKETS
  }

  function TextOf(g: Segment): string {
    g.name + Brackets(g.arrays)
  }

  function Texts(gs: seq<Segment>): seq<string> {
    seq(|gs|, i requires 0 <= i < |gs| => TextOf(gs[i]))
  }

  function Format(gs: seq<Segment>): string {
    JoinWith(Texts(gs), ".")
  }

  function Hops(n: nat): seq<PathStep> {
    if n == 0 then [] else Hops(n - 1) + [ArrayHop]
  }

  /** The steps a path stands for: each member, then its array hops. */
  function Steps(gs: seq<Segment>): seq<PathStep>
    decreases gs
  {
    if gs == [] then []
    else
      var last := gs[|gs| - 1];
      Steps(gs[..|gs| - 1]) + [Member(last.name)] + Hops(last.arrays)
  }

  /** Names are what is left when no more brackets can be taken off, and hold no dot. */
  ghost predicate Proper(gs: seq<Segment>) {
    gs != [] && forall i | 0 <= i < |gs| :: !EndsInBrackets(gs[i].name) && Without(gs[i].name, '.')
  }

  lemma {:induction false} BracketsAreUnambiguous(a: Segment, b: Segment)
    requires !EndsInBrackets(a.name) && !EndsInBrackets(b.name) && TextOf(a) == TextOf(b)
    ensures a == b
    decreases a.arrays
  {
    if a.arrays > 0 && b.arrays > 0 {
      var s, t := a.name + Brackets(a.arrays - 1), b.name + Brackets(b.arrays - 1);
      assert TextOf(a) == s + BRACKETS && TextOf(b) == t + BRACKETS;
      assert s == (s + BRACKETS)[..|TextOf(a)| - 2] == t;
      BracketsAreUnambiguous(a.(arrays := a.arrays - 1), b.(arrays := b.arrays - 1));
    } else {
      BracketsAtEnd(a);
      BracketsAtEnd(b);
    }
  }

  lemma BracketsAtEnd(g: Segment)
    ensures g.arrays > 0 ==> EndsInBrackets(TextOf(g))
    ensures g.arrays == 0 ==> TextOf(g) == g.name
  {
    if g.arrays > 0 {
      assert TextOf(g) == g.name + Brackets(g.arrays - 1) + BRACKETS;
    }
  }

  lemma {:induction false} BracketsHoldNoDot(name: string, n: nat)
    requires Without(name, '.')
    ensures Without(name + Brackets(n), '.')
    decreases n
  {
    if n > 0 {
      BracketsHoldNoDot(name, n - 1);
      assert name + Brackets(n) == name + Brackets(n - 1) + BRACKETS;
    }
  }

  /** Two proper lists of segments that read alike are alike. */
  lemma FormatIsInjective(a: seq<Segment>, b: seq<Segment>)
    requires Proper(a) && Proper(b) && Format(a) == Format(b)
    ensures a == b
  {
    hide TextOf, EndsInBrackets, JoinWith, Without;
    forall i | 0 <= i < |a| ensures Without(Texts(a)[i], '.') { TextHoldsNoDot(a[i]); }
    forall i | 0 <= i < |b| ensures Without(Texts(b)[i], '.') { TextHoldsNoDot(b[i]); }
    SplitOfJoinWith(Texts(a), '.');
    SplitOfJoinWith(Texts(b), '.');
    assert Texts(a) == Texts(b);
    forall i | 0 <= i < |a| ensures a[i] == b[i] {
      assert TextOf(a[i]) == Texts(a)[i] == Texts(b)[i] == TextOf(b[i]);
      BracketsAreUnambiguous(a[i], b[i]);
    }
  }

  lemma TextHoldsNoDot(g: Segment)
    requires Without(g.name, '.')
    ensures Without(TextOf(g), '.')
  {
    BracketsHoldNoDot(g.name, g.arrays);
  }

  /** Takes off brackets as long as there are any. */
  method ParseSegment(piece: string) returns (name: string, arrays: nat)
    ensures TextOf(Segment(name, arrays)) == piece && !EndsInBrackets(name)
    ensures Without(piece, '.') ==> Without(name, '.')
  {
    name, arrays := piece, 0;
    while EndsInBrackets(name)
      invariant TextOf(Segment(name, arrays)) == piece && (Without(piece, '.') ==> Without(name, '.'))
      decreases |name|
    {
      OneArrayMore(name, arrays);
      name := name[..|name| - 2];
      arrays := arrays + 1;
    }
  }

  // ---- Reading steps back ------------------------------------------------------------------------------------------

  /** The path that steps read as: a dot before each member but the first, brackets for each array hop. */
  function Written(steps: seq<PathStep>): string
    decreases steps
  {
    if steps == [] then ""
    else
      var front, last := steps[..|steps| - 1], steps[|steps| - 1];
      if last.ArrayHop? then Written(front) + "[]"
      else if front == [] then last.name
      else Written(front) + "." + last.name
  }

  /** Steps as the walk takes them: members first, without dots and without brackets of their own. */
  ghost predicate ProperSteps(steps: seq<PathStep>) {
    && steps != [] && steps[0].Member?
    && forall i | 0 <= i < |steps| && steps[i].Member? ::
         var name := steps[i].name;
         Without(name, '.') && !(|name| >= 2 && name[|name| - 2..] == "[]")
  }

  lemma WrittenMore(steps: seq<PathStep>, step: PathStep)
    ensures Written(steps + [step]) ==
            if step.ArrayHop? then Written(steps) + "[]"
            else if steps == [] then step.name
            else Written(steps) + "." + step.name
  {
    assert (steps + [step])[..|steps|] == steps;
  }

  lemma {:induction false} WrittenHops(steps: seq<PathStep>, n: nat)
    ensures Written(steps + Hops(n)) == Written(steps) + Brackets(n)
    decreases n
  {
    hide Written;
    if n == 0 {
      assert steps + Hops(0) == steps && Written(steps) + "" == Written(steps);
    } else {
      WrittenHops(steps, n - 1);
      WrittenMore(steps + Hops(n - 1), ArrayHop);
      assert steps + Hops(n - 1) + [ArrayHop] == steps + Hops(n);
      assert Written(steps) + Brackets(n - 1) + "[]" == Written(steps) + (Brackets(n - 1) + "[]");
    }
  }

  lemma {:induction false} JoinMore(pieces: seq<string>, piece: string, separator: string)
    ensures JoinWith(pieces + [piece], separator)
            == if pieces == [] then piece else JoinWith(pieces, separator) + separator + piece
    decreases pieces
  {
    if |pieces| == 1 {
      JoinWithCons(pieces[0], [piece], separator);
      assert [pieces[0]] + [piece] == pieces + [piece];
    } else if pieces != [] {
      var first, rest := pieces[0], pieces[1..];
      JoinMore(rest, piece, separator);
      JoinWithCons(first, rest + [piece], separator);
      assert [first] + (rest + [piece]) == pieces + [piece] && [first] + rest == pieces;
      var joined := JoinWith(rest, separator);
      assert first + separator + (joined + separator + piece) == first + separator + joined + separator + piece;
    }
  }

  /** The steps of proper segments read as the segments do. */
  lemma {:induction false} StepsReadAsPath(gs: seq<Segment>)
    requires Proper(gs)
    ensures Written(Steps(gs)) == Format(gs) && ProperSteps(Steps(gs))
    decreases gs
  {
    hide Written, TextOf, JoinWith, Steps, Hops, Brackets, Without, ProperSteps;
    var front, last := gs[..|gs| - 1], gs[|gs| - 1];
    assert gs == front + [last] && Texts(gs) == Texts(front) + [TextOf(last)];
    JoinMore(Texts(front), TextOf(last), ".");
    StepsOfMore(front, last);
    WrittenMore(Steps(front), Member(last.name));
    WrittenHops(Steps(front) + [Member(last.name)], last.arrays);
    if front != [] {
      StepsReadAsPath(front);
      ProperIsNotEmpty(Steps(front));
      TextIs(last);
      assert Format(front) + "." + last.name + Brackets(last.arrays) == Format(front) + "." + TextOf(last);
    } else {
      TextIs(last);
    }
    ProperMore(Steps(front), last);
  }

  lemma TextIs(g: Segment)
    ensures TextOf(g) == g.name + Brackets(g.arrays)
  {}

  lemma ProperIsNotEmpty(steps: seq<PathStep>)
    requires ProperSteps(steps)
    ensures steps != []
  {}

  lemma {:induction false} ProperMore(steps: seq<PathStep>, g: Segment)
    requires (steps == [] || ProperSteps(steps)) && !EndsInBrackets(g.name) && Without(g.name, '.')
    ensures ProperSteps(steps + [Member(g.name)] + Hops(g.arrays))
    decreases g.arrays
  {
    hide Without;
    if g.arrays > 0 {
      ProperMore(steps, g.(arrays := g.arrays - 1));
      var before := steps + [Member(g.name)] + Hops(g.arrays - 1);
      assert before + [ArrayHop] == steps + [Member(g.name)] + Hops(g.arrays);
    }
  }

  /**
   The steps of a path: those of the one proper list of segments that reads as the path. There is such a list for
   every path, also for an empty one and for one with empty names.
   */
  method ParsePath(path: string) returns (steps: seq<PathStep>)
    ensures exists segments :: Proper(segments) && Format(segments) == path && steps == Steps(segments)
    ensures Written(steps) == path && ProperSteps(steps)
  {
    hide TextOf, EndsInBrackets, JoinWith, Without, Steps, Written, ProperSteps;
    ghost var segments: seq<Segment> := [];
    steps := [];
    var pieces := SplitAt(path, '.');
    PiecesHoldNoDot(path, 0, "");
    StepsOfMore([], Segment("", 0));
    for k := 0 to |pieces|
      invariant |segments| == k && steps == Steps(segments)
      invariant forall i | 0 <= i < k :: TextOf(segments[i]) == pieces[i]
      invariant forall i | 0 <= i < k :: !EndsInBrackets(segments[i].name) && Without(segments[i].name, '.')
    {
      var name, arrays := ParseSegment(pieces[k]);
      ghost var before := steps;
      steps := steps + [Member(name)];
      for i := 0 to arrays
        invariant steps == before + [Member(name)] + Hops(i)
      {
        steps := steps + [ArrayHop];
      }
      StepsOfMore(segments, Segment(name, arrays));
      segments := segments + [Segment(name, arrays)];
    }
    assert Texts(segments) == pieces;
    JoinOfSplitAt(path, '.');
    assert Proper(segments);
    StepsReadAsPath(segments);
  }

  lemma StepsOfMore(gs: seq<Segment>, g: Segment)
    ensures Steps(gs + [g]) == Steps(gs) + [Member(g.name)] + Hops(g.arrays)
    ensures Steps([]) == []
  {
    assert (gs + [g])[..|gs|] == gs;
  }

  lemma OneArrayMore(name: string, arrays: nat)
    requires EndsInBrackets(name)
    ensures TextOf(Segment(name[..|name| - 2], arrays + 1)) == TextOf(Segment(name, arrays))
  {
    var front := name[..|name| - 2];
    assert name == front + BRACKETS;
    BracketsCommute(arrays);
    assert front + (BRACKETS + Brackets(arrays)) == front + BRACKETS + Brackets(arrays);
  }

  lemma {:induction false} BracketsCommute(n: nat)
    ensures BRACKETS + Brackets(n) == Brackets(n) + BRACKETS
  {
    if n > 0 {
      BracketsCommute(n - 1);
      assert BRACKETS + (Brackets(n - 1) + BRACKETS) == BRACKETS + Brackets(n - 1) + BRACKETS;
    } else {
      assert BRACKETS + "" == BRACKETS == "" + BRACKETS;
    }
  }

  lemma {:induction false} PiecesHoldNoDot(path: string, i: nat, piece: string)
    requires i <= |path| && Without(piece, '.')
    ensures forall k | 0 <= k < |SplitFrom(path, i, piece, '.')| :: Without(SplitFrom(path, i, piece, '.')[k], '.')
    decreases |path| - i
  {
    if i < |path| {
      if path[i] == '.' {
        PiecesHoldNoDot(path, i + 1, "");
      } else {
        PiecesHoldNoDot(path, i + 1, piece + [path[i]]);
      }
    }
  }
}
