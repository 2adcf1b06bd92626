/**
 A line seen as the text before its first quote and the bodies behind each quote. On this view a rename pass touches
 bodies one by one, and never the quotes.
 */
module RescopePieces {
  import opened Strings
  import opened Wrappers
  import opened Rescope

  /** A quote and the text up to the next quote. */
  datatype Part = Part(quote: char, body: string)

  datatype Line = Line(head: string, parts: seq<Part>)

  ghost predicate QuoteFree(s: string) {
    forall i | 0 <= i < |s| :: !IsQuote(s[i])
  }

  ghost predicate CleanPart(p: Part) {
    IsQuote(p.quote) && QuoteFree(p.body)
  }

  ghost predicate Clean(l: Line) {
    QuoteFree(l.head) && forall k | 0 <= k < |l.parts| :: CleanPart(l.parts[k])
  }

  function JoinParts(parts: seq<Part>): string
    decreases parts
  {
    if parts == [] then "" else [parts[0].quote] + parts[0].body + JoinParts(parts[1..])
  }

  function Join(l: Line): string {
    l.head + JoinParts(l.parts)
  }

  function NextQuote(s: string, i: nat): (j: nat)
    requires i <= |s|
    ensures i <= j <= |s| && forall k | i <= k < j :: !IsQuote(s[k])
    ensures j < |s| ==> IsQuote(s[j])
    decreases |s| - i
  {
    if i == |s| || IsQuote(s[i]) then i else NextQuote(s, i + 1)
  }

  function PartsFrom(s: string, i: nat): seq<Part>
    requires i <= |s|
    decreases |s| - i
  {
    if i == |s| then []
    else
      var j := NextQuote(s, i + 1);
      [Part(s[i], s[i + 1..j])] + PartsFrom(s, j)
  }

  lemma PartsFromStep(s: string, i: nat)
    requires i <= |s|
    ensures i == |s| ==> PartsFrom(s, i) == []
    ensures i < |s| ==>
      var j, parts := NextQuote(s, i + 1), PartsFrom(s, i);
      |parts| > 0 && parts[0] == Part(s[i], s[i + 1..j]) && parts[1..] == PartsFrom(s, j)
  {}

  function Split(s: string): Line {
    var j := NextQuote(s, 0);
    Line(s[..j], PartsFrom(s, j))
  }

  ghost predicate AllClean(parts: seq<Part>) {
    forall k | 0 <= k < |parts| :: CleanPart(parts[k])
  }

  lemma CleanCons(p: Part, rest: seq<Part>)
    requires CleanPart(p) && AllClean(rest)
    ensures AllClean([p] + rest)
  {}

  lemma PartAtQuote(s: string, i: nat)
    requires i < |s| && IsQuote(s[i])
    ensures
      var j := NextQuote(s, i + 1);
      CleanPart(Part(s[i], s[i + 1..j])) && s[i..] == [s[i]] + s[i + 1..j] + s[j..]
  {
  }

  lemma {:induction false} PartsFromJoin(s: string, i: nat)
    requires i <= |s| && (i < |s| ==> IsQuote(s[i]))
    ensures AllClean(PartsFrom(s, i)) && JoinParts(PartsFrom(s, i)) == s[i..]
    decreases |s| - i
  {
    if i < |s| {
      hide CleanPart, JoinParts, PartsFrom, IsQuote, AllClean;
      var j := NextQuote(s, i + 1);
      PartAtQuote(s, i);
      PartsFromJoin(s, j);
      PartsFromStep(s, i);
      var p := Part(s[i], s[i + 1..j]);
      assert PartsFrom(s, i) == [p] + PartsFrom(s, j);
      CleanCons(p, PartsFrom(s, j));
      JoinOne(p, PartsFrom(s, j));
    }
  }

  /** Splitting loses nothing. */
  lemma JoinOfSplit(s: string)
    ensures Clean(Split(s)) && Join(Split(s)) == s
  {
    PartsFromJoin(s, NextQuote(s, 0));
  }

  /** Where the pieces of a text lie that is known from an index on. */
  lemma Laid(s: string, i: nat, q: char, body: string, rest: string)
    requires i <= |s| && s[i..] == [q] + body + rest
    ensures i + 1 + |body| <= |s| && s[i] == q && s[i + 1..i + 1 + |body|] == body && s[i + 1 + |body|..] == rest
  {
    var t := s[i..];
    assert |t| == 1 + |body| + |rest| && t[0] == q;
    assert forall k | 0 <= k < |body| :: s[i + 1 + k] == t[1 + k] == body[k];
    assert forall k | 0 <= k < |rest| :: s[i + 1 + |body| + k] == t[1 + |body| + k] == rest[k];
  }

  lemma NextQuoteBehind(s: string, i: nat, j: nat)
    requires i <= j <= |s| && QuoteFree(s[i..j]) && (j < |s| ==> IsQuote(s[j]))
    ensures NextQuote(s, i) == j
  {
    assert forall k | i <= k < j :: s[k] == s[i..j][k - i];
  }

  lemma JoinStartsWithQuote(parts: seq<Part>)
    requires parts != [] && CleanPart(parts[0])
    ensures JoinParts(parts) == [parts[0].quote] + parts[0].body + JoinParts(parts[1..])
    ensures JoinParts(parts) != "" && IsQuote(JoinParts(parts)[0])
  {}

  lemma {:induction false} PartsOfJoin(s: string, i: nat, parts: seq<Part>)
    requires i <= |s| && s[i..] == JoinParts(parts) && (i < |s| ==> IsQuote(s[i]))
    requires forall k | 0 <= k < |parts| :: CleanPart(parts[k])
    ensures PartsFrom(s, i) == parts
    decreases parts
  {
    if parts == [] {
    } else {
      var p, rest := parts[0], JoinParts(parts[1..]);
      var j := i + 1 + |p.body|;
      assert CleanPart(p) && QuoteFree(p.body);
      JoinStartsWithQuote(parts);
      hide JoinParts, PartsFrom, NextQuote, IsQuote, QuoteFree;
      Laid(s, i, p.quote, p.body, rest);
      if |parts| > 1 {
        assert CleanPart(parts[1]);
        JoinStartsWithQuote(parts[1..]);
        assert s[j] == rest[0];
      } else {
        NothingJoined(parts[1..]);
      }
      NextQuoteBehind(s, i + 1, j);
      PartsOfJoin(s, j, parts[1..]);
      PartsFromStep(s, i);
    }
  }

  lemma NothingJoined(parts: seq<Part>)
    requires parts == []
    ensures JoinParts(parts) == ""
  {}

  /** Splitting is the inverse of joining; so lines that join alike are alike. */
  lemma SplitOfJoin(l: Line)
    requires Clean(l)
    ensures Split(Join(l)) == l
  {
    var s, j := Join(l), |l.head|;
    assert s[j..] == JoinParts(l.parts) && s[..j] == l.head;
    if l.parts != [] {
      assert CleanPart(l.parts[0]);
      assert s[j] == s[j..][0] == l.parts[0].quote;
    }
    forall k | 0 <= k < j ensures !IsQuote(s[k]) {
      assert s[k] == l.head[k];
    }
    assert NextQuote(s, 0) == j;
    PartsOfJoin(s, j, l.parts);
  }

  // ---- The token rule on bodies ------------------------------------------------------------------------------------

  /** The name alone, or the name and a subpath without whitespace. */
  predicate IsTokenBody(body: string, name: string) {
    && |name| <= |body| && body[..|name|] == name
    && (|body| == |name| || (body[|name|] == '/' && forall k | |name| <= k < |body| :: !IsSpace(body[k])))
  }

  /** Body k is a token of the name: it stands between two quotes of the same kind. */
  predicate TokenAt(parts: seq<Part>, k: nat, name: string) {
    k + 1 < |parts| && parts[k].quote == parts[k + 1].quote && IsTokenBody(parts[k].body, name)
  }

  function Renamed(body: string, p: Pattern): string
    requires |p.from| <= |body|
  {
    p.to + body[|p.from|..]
  }

  /** The closing quote of a replaced token opens no other one. */
  function RenameParts(parts: seq<Part>, p: Pattern, taken: bool): seq<Part>
    decreases parts
  {
    if parts == [] then []
    else if !taken && TokenAt(parts, 0, p.from) then
      [Part(parts[0].quote, Renamed(parts[0].body, p))] + RenameParts(parts[1..], p, true)
    else [parts[0]] + RenameParts(parts[1..], p, false)
  }

  ghost predicate GoodName(name: string) {
    name != "" && forall i | 0 <= i < |name| :: !IsQuote(name[i]) && !IsSpace(name[i]) && name[i] != '#'
  }

  lemma BodyIsFound(s: string, i: nat, j: nat, name: string)
    requires i < j < |s| && IsQuote(s[i]) && s[j] == s[i] && QuoteFree(s[i + 1..j])
    requires IsTokenBody(s[i + 1..j], name)
    ensures TokenEnd(s, i, name) == Some(j)
  {
    var body, e := s[i + 1..j], i + 1 + |name|;
    SliceOfSlice(s, i + 1, j, 0, |name|);
    assert s[i + 1..e] == body[..|name|];
    if |body| > |name| {
      assert s[e] == body[|name|];
      forall k | e <= k < j ensures !IsSpace(s[k]) && !IsQuote(s[k]) {
        assert s[k] == body[k - i - 1];
      }
      var end := RunEnd(s, e + 1);
      assert end == j;
    }
  }

  lemma FoundIsBody(s: string, i: nat, name: string)
    requires i < |s| && GoodName(name) && TokenEnd(s, i, name).Some?
    ensures
      var j := TokenEnd(s, i, name).value;
      && s[j] == s[i] && IsQuote(s[i]) && IsTokenBody(s[i + 1..j], name)
      && QuoteFree(s[i + 1..j])
  {
    var j, e := TokenEnd(s, i, name).value, i + 1 + |name|;
    var body := s[i + 1..j];
    SliceOfSlice(s, i + 1, j, 0, |name|);
    assert body[..|name|] == s[i + 1..e] == name;
    forall k | 0 <= k < |body| ensures !IsQuote(body[k]) && (k >= |name| ==> !IsSpace(body[k])) {
      assert body[k] == s[i + 1 + k];
      if k < |name| {
        assert body[k] == name[k];
      }
    }
  }

  /** At a quote, the scan finds a token exactly when the body behind it is one and the next quote is of its kind. */
  lemma TokenEndIsNextQuote(s: string, i: nat, name: string)
    requires i < |s| && IsQuote(s[i]) && GoodName(name)
    ensures TokenAt(PartsFrom(s, i), 0, name) ==> TokenEnd(s, i, name) == Some(NextQuote(s, i + 1))
    ensures TokenEnd(s, i, name).Some? ==> TokenAt(PartsFrom(s, i), 0, name)
  {
    hide TokenEnd, IsTokenBody, IsQuote, PartsFrom, GoodName;
    var j := NextQuote(s, i + 1);
    PartsFromStep(s, i);
    PartsFromStep(s, j);
    if TokenAt(PartsFrom(s, i), 0, name) {
      BodyIsFound(s, i, j, name);
    }
    if TokenEnd(s, i, name).Some? {
      FoundIsBody(s, i, name);
      var end := TokenEnd(s, i, name).value;
      forall k | i + 1 <= k < end ensures !IsQuote(s[k]) {
        assert s[k] == s[i + 1..end][k - i - 1];
      }
      assert end == j;
    }
  }

  lemma JoinOne(p: Part, rest: seq<Part>)
    ensures JoinParts([p] + rest) == [p.quote] + p.body + JoinParts(rest)
  {
    assert ([p] + rest)[1..] == rest;
  }

  lemma NoTokenOutsideQuotes(s: string, i: nat, name: string)
    requires i < |s|
    ensures TokenEnd(s, i, name).Some? ==> IsQuote(s[i])
  {}

  lemma RenameStep(parts: seq<Part>, p: Pattern)
    requires parts != []
    ensures RenameParts(parts, p, false) ==
            if TokenAt(parts, 0, p.from) then
              [Part(parts[0].quote, Renamed(parts[0].body, p))] + RenameParts(parts[1..], p, true)
            else [parts[0]] + RenameParts(parts[1..], p, false)
    ensures RenameParts(parts, p, true) == [parts[0]] + RenameParts(parts[1..], p, false)
  {}

  /** The text from index i on, with the pass made over its bodies. */
  function PassedOver(s: string, i: nat, p: Pattern): string
    requires i <= |s|
  {
    var j := NextQuote(s, i);
    s[i..j] + JoinParts(RenameParts(PartsFrom(s, j), p, false))
  }

  lemma PassedOverEnd(s: string, p: Pattern)
    ensures PassedOver(s, |s|, p) == ""
  {
    PartsFromStep(s, |s|);
    RenameNothing(p);
  }

  lemma PassedOverText(s: string, i: nat, p: Pattern)
    requires i < |s| && !IsQuote(s[i])
    ensures PassedOver(s, i, p) == [s[i]] + PassedOver(s, i + 1, p)
  {
    ScanStep(s, i, p);
    hide NextQuote, RenameParts, PartsFrom, JoinParts, IsQuote;
    var j := NextQuote(s, i);
    PrependOne(s, i, j, JoinParts(RenameParts(PartsFrom(s, j), p, false)));
  }

  lemma PassedOverQuote(s: string, i: nat, p: Pattern)
    requires i < |s| && IsQuote(s[i]) && !TokenAt(PartsFrom(s, i), 0, p.from)
    ensures PassedOver(s, i, p) == [s[i]] + PassedOver(s, i + 1, p)
  {
    ScanStep(s, i, p);
    PartsFromStep(s, i);
    hide NextQuote, RenameParts, PartsFrom, JoinParts, IsQuote, TokenAt;
    var j, parts := NextQuote(s, i + 1), PartsFrom(s, i);
    RenameStep(parts, p);
    JoinOne(parts[0], RenameParts(parts[1..], p, false));
    PrependOne(s, i, j, JoinParts(RenameParts(parts[1..], p, false)));
  }

  lemma PassedOverToken(s: string, i: nat, p: Pattern)
    requires i < |s| && IsQuote(s[i]) && TokenAt(PartsFrom(s, i), 0, p.from)
    ensures i + 1 + |p.from| <= NextQuote(s, i + 1) < |s|
    ensures
      var j := NextQuote(s, i + 1);
      PassedOver(s, i, p) == [s[i]] + p.to + s[i + 1 + |p.from|..j + 1] + PassedOver(s, j + 1, p)
  {
    hide *;
    ScanStep(s, i, p);
    ReplacedPart(s, i, p);
    PassedOverIs(s, i, p);
    PassedOverIs(s, NextQuote(s, i + 1) + 1, p);
    EmptyFront(s, i, JoinParts(RenameParts(PartsFrom(s, i), p, false)));
  }

  lemma PassedOverIs(s: string, i: nat, p: Pattern)
    requires i <= |s|
    ensures PassedOver(s, i, p)
            == s[i..NextQuote(s, i)] + JoinParts(RenameParts(PartsFrom(s, NextQuote(s, i)), p, false))
  {}

  lemma EmptyFront(s: string, i: nat, rest: string)
    requires i <= |s|
    ensures s[i..i] + rest == rest
  {}

  /** The scan over the line is the pass over its bodies. */
  lemma {:induction false} ReplaceTokensOnParts(s: string, i: nat, p: Pattern)
    requires i <= |s| && GoodName(p.from)
    ensures ReplaceTokens(s, i, p) == PassedOver(s, i, p)
    decreases |s| - i
  {
    hide *;
    ScanStep(s, i, p);
    if i == |s| {
      PassedOverEnd(s, p);
    } else if !IsQuote(s[i]) {
      NoTokenOutsideQuotes(s, i, p.from);
      ReplaceTokensOnParts(s, i + 1, p);
      PassedOverText(s, i, p);
    } else {
      TokenEndIsNextQuote(s, i, p.from);
      if TokenAt(PartsFrom(s, i), 0, p.from) {
        PassedOverToken(s, i, p);
        ReplaceTokensOnParts(s, NextQuote(s, i + 1) + 1, p);
      } else {
        ReplaceTokensOnParts(s, i + 1, p);
        PassedOverQuote(s, i, p);
      }
    }
  }

  lemma PrependOne(s: string, i: nat, j: nat, rest: string)
    requires i < j <= |s|
    ensures [s[i]] + (s[i + 1..j] + rest) == s[i..j] + rest == s[i..i] + ([s[i]] + s[i + 1..j] + rest)
  {
    assert s[i..j] == [s[i]] + s[i + 1..j];
  }

  lemma ScanStep(s: string, i: nat, p: Pattern)
    requires i <= |s|
    ensures NextQuote(s, i) == if i == |s| || IsQuote(s[i]) then i else NextQuote(s, i + 1)
    ensures ReplaceTokens(s, i, p) ==
            if i == |s| then ""
            else match TokenEnd(s, i, p.from)
              case Some(j) => [s[i]] + p.to + s[i + 1 + |p.from|..j + 1] + ReplaceTokens(s, j + 1, p)
              case None => [s[i]] + ReplaceTokens(s, i + 1, p)
  {}

  lemma RenameNothing(p: Pattern)
    ensures JoinParts(RenameParts([], p, false)) == ""
  {}

  lemma Regroup<T>(a: seq<T>, b: seq<T>, c: seq<T>, d: seq<T>, e: seq<T>, f: seq<T>)
    ensures a + (b + c) + (d + e + f) == a + b + (c + d) + (e + f)
  {}

  lemma JoinRenamed(part: Part, next: Part, more: seq<Part>, p: Pattern)
    requires |p.from| <= |part.body|
    ensures JoinParts([Part(part.quote, Renamed(part.body, p))] + ([next] + more))
            == [part.quote] + p.to + (part.body[|p.from|..] + [next.quote]) + (next.body + JoinParts(more))
  {
    hide JoinParts, Renamed;
    JoinOne(next, more);
    JoinOne(Part(part.quote, Renamed(part.body, p)), [next] + more);
    RenamedIs(part.body, p);
    Regroup([part.quote], p.to, part.body[|p.from|..], [next.quote], next.body, JoinParts(more));
  }

  lemma TokenIsInside(s: string, i: nat, name: string)
    requires i < |s| && TokenAt(PartsFrom(s, i), 0, name)
    ensures i + 1 + |name| <= NextQuote(s, i + 1) < |s|
  {
    PartsFromStep(s, i);
    PartsFromStep(s, NextQuote(s, i + 1));
  }

  lemma ReplacedPart(s: string, i: nat, p: Pattern)
    requires i < |s| && TokenAt(PartsFrom(s, i), 0, p.from)
    ensures i + 1 + |p.from| <= NextQuote(s, i + 1) < |s|
    ensures
      var j := NextQuote(s, i + 1);
      var n := NextQuote(s, j + 1);
      JoinParts(RenameParts(PartsFrom(s, i), p, false))
      == [s[i]] + p.to + s[i + 1 + |p.from|..j + 1] + (s[j + 1..n] + JoinParts(RenameParts(PartsFrom(s, n), p, false)))
  {
    hide *;
    TokenIsInside(s, i, p.from);
    var parts, j := PartsFrom(s, i), NextQuote(s, i + 1);
    PartsFromStep(s, i);
    PartsFromStep(s, j);
    var rest, n := PartsFrom(s, j), NextQuote(s, j + 1);
    RenameStep(parts, p);
    RenameStep(rest, p);
    JoinRenamed(parts[0], rest[0], RenameParts(PartsFrom(s, n), p, false), p);
    TailOfBody(s, i, j, |p.from|);
  }

  lemma RenamedIs(body: string, p: Pattern)
    requires |p.from| <= |body|
    ensures Renamed(body, p) == p.to + body[|p.from|..]
  {}

  lemma TailOfBody(s: string, i: nat, j: nat, n: nat)
    requires i < j < |s| && i + 1 + n <= j
    ensures s[i + 1..j][n..] + [s[j]] == s[i + 1 + n..j + 1]
  {}
}
