/**
 The generic pass over a whole text. A text is cut at newlines into lines, and each line at its other line terminators
 into the stretches between which `^` and `$` match; the pass keeps the cuts, the fences, and so which lines it may
 touch.
 */
module RescopeText {
  import opened Strings
  import opened Rescope
  import opened RescopePieces
  import opened RescopeTokens
  import opened RescopeYaml
  import opened RescopeLaws

  type TextLine = seq<string>

  /** Markdown is rewritten inside fences only, Markdown under `docs/` outside them too, other files throughout. */
  datatype Kind = OtherFile | DocsMarkdown | OtherMarkdown

  const FENCE := "```"

  /** The line starts with a fence, behind whitespace, which includes the line terminators between its stretches. */
  predicate IsFence(line: TextLine)
    decreases line
  {
    line != [] &&
    var i := SkipSpaces(line[0], 0);
    if i == |line[0]| then IsFence(line[1..]) else StartsAt(line[0], i, FENCE)
  }

  function RewriteLine(line: TextLine, ps: seq<Pattern>): TextLine
    decreases line
  {
    if line == [] then [] else [RewriteStretch(line[0], ps)] + RewriteLine(line[1..], ps)
  }

  /** Whether a fence is open before line k: fence lines toggle it, whatever they open or close. */
  predicate InsideAt(text: seq<TextLine>, k: nat)
    requires k <= |text|
  {
    k > 0 && (IsFence(text[k - 1]) != InsideAt(text, k - 1))
  }

  predicate Eligible(kind: Kind, text: seq<TextLine>, k: nat)
    requires k < |text|
  {
    kind == OtherFile || (!IsFence(text[k]) && (kind == DocsMarkdown || InsideAt(text, k)))
  }

  function LineOf(kind: Kind, text: seq<TextLine>, k: nat, ps: seq<Pattern>): TextLine
    requires k < |text|
  {
    if Eligible(kind, text, k) then RewriteLine(text[k], ps) else text[k]
  }

  function RewriteText(kind: Kind, text: seq<TextLine>, ps: seq<Pattern>): seq<TextLine> {
    seq(|text|, k requires 0 <= k < |text| => LineOf(kind, text, k, ps))
  }

  /** The lines before k that differ. */
  ghost function ChangedBefore(text: seq<TextLine>, out: seq<TextLine>, k: nat): set<int>
    requires k <= |text| && k <= |out|
  {
    set j | 0 <= j < k && out[j] != text[j]
  }

  lemma ChangedNext(text: seq<TextLine>, out: seq<TextLine>, next: TextLine)
    requires |out| < |text|
    ensures
      var k := |out|;
      var before := ChangedBefore(text, out, k);
      && ChangedBefore(text, out + [next], k + 1) == (if next != text[k] then before + {k} else before)
      && k !in before
  {
    var k := |out|;
    forall j | 0 <= j < k ensures j in ChangedBefore(text, out + [next], k + 1) <==> j in ChangedBefore(text, out, k) {
      assert (out + [next])[j] == out[j];
    }
  }

  method Rewrite(kind: Kind, text: seq<TextLine>, ps: seq<Pattern>) returns (out: seq<TextLine>, lines: nat)
    ensures out == RewriteText(kind, text, ps)
    ensures lines == |ChangedBefore(text, out, |text|)|
  {
    hide IsFence, RewriteLine, ChangedBefore;
    var insideFence := false;
    out, lines := [], 0;
    NothingChangedYet(text);
    for k := 0 to |text|
      invariant |out| == k && insideFence == (kind != OtherFile && InsideAt(text, k))
      invariant forall j | 0 <= j < k :: out[j] == LineOf(kind, text, j, ps)
      invariant lines == |ChangedBefore(text, out, k)|
    {
      var line := text[k];
      var next := line;
      if kind != OtherFile && IsFence(line) {
        insideFence := !insideFence;
      } else if kind == OtherFile || insideFence || kind == DocsMarkdown {
        next := RewriteLine(line, ps);
        if next != line {
          lines := lines + 1;
        }
      }
      ChangedNext(text, out, next);
      out := out + [next];
    }
  }

  lemma NothingChangedYet(text: seq<TextLine>)
    ensures |ChangedBefore(text, [], 0)| == 0
  {}

  // ---- The pass keeps the cuts -------------------------------------------------------------------------------------

  ghost predicate Whole(s: string) {
    forall i | 0 <= i < |s| :: !IsTerminator(s[i])
  }

  lemma {:induction false} TokensStayWhole(s: string, i: nat, p: Pattern)
    requires i <= |s| && Whole(s) && GoodName(p.to)
    ensures Whole(ReplaceTokens(s, i, p))
    decreases |s| - i
  {
    if i < |s| {
      match TokenEnd(s, i, p.from)
      case Some(j) =>
        TokensStayWhole(s, j + 1, p);
        WholeJoin([s[i]] + p.to, s[i + 1 + |p.from|..j + 1]);
        WholeJoin([s[i]] + p.to + s[i + 1 + |p.from|..j + 1], ReplaceTokens(s, j + 1, p));
      case None =>
        TokensStayWhole(s, i + 1, p);
        WholeJoin([s[i]], ReplaceTokens(s, i + 1, p));
    }
  }

  lemma WholeJoin(a: string, b: string)
    requires Whole(a) && Whole(b)
    ensures Whole(a + b)
  {}

  /** No rename puts a line terminator into a stretch, so the rewritten text is cut where the text was. */
  lemma {:induction false} StretchesStayWhole(s: string, ps: seq<Pattern>)
    requires Whole(s) && Separated(ps)
    ensures Whole(RewriteStretch(s, ps))
    decreases ps
  {
    if ps != [] {
      hide Apart, ScalarStart, ReplaceTokens, OnlyComment, StartsAt;
      var p := ps[0];
      var t := ReplaceTokens(s, 0, p);
      assert GoodName(p.to);
      TokensStayWhole(s, 0, p);
      if NamesInYaml(t, p.from) {
        var n := ScalarStart(t).value;
        StartFits(t, n, p.from);
        WholeJoin(t[..n], p.to);
        WholeJoin(t[..n] + p.to, t[n + |p.from|..]);
      }
      SeparatedRest(ps);
      StretchesStayWhole(ReplaceYamlName(t, p), ps[1..]);
    }
  }

  // ---- The pass keeps the fences -----------------------------------------------------------------------------------

  ghost predicate AllSpaces(s: string) {
    SkipSpaces(s, 0) == |s|
  }

  ghost predicate FenceParts(parts: seq<Part>) {
    |parts| >= 3 && parts[0].quote == parts[1].quote == parts[2].quote == '`' && parts[0].body == parts[1].body == ""
  }

  /** The parts start with n backquotes with nothing between them. */
  ghost predicate TickParts(parts: seq<Part>, n: nat)
    decreases n
  {
    n > 0 ==> parts != [] && parts[0].quote == '`' && (n == 1 || (parts[0].body == "" && TickParts(parts[1..], n - 1)))
  }

  ghost function Ticks(n: nat): string {
    if n == 0 then "" else "`" + Ticks(n - 1)
  }

  lemma {:induction false} TicksOfParts(parts: seq<Part>, n: nat)
    requires forall k | 0 <= k < |parts| :: CleanPart(parts[k])
    ensures Ticks(n) <= JoinParts(parts) <==> TickParts(parts, n)
    decreases n
  {
    if n > 0 && parts != [] {
      var s, tail := JoinParts(parts), parts[0].body + JoinParts(parts[1..]);
      assert s == [parts[0].quote] + tail;
      PrefixOfCons('`', Ticks(n - 1), parts[0].quote, tail);
      if n == 1 {
        assert Ticks(0) <= tail;
      } else if parts[0].body == "" {
        assert tail == JoinParts(parts[1..]);
        TicksOfParts(parts[1..], n - 1);
      } else {
        assert CleanPart(parts[0]) && tail[0] == parts[0].body[0] && Ticks(n - 1)[0] == '`';
      }
    }
  }

  lemma PrefixOfCons(a: char, s: string, b: char, t: string)
    ensures [a] + s <= [b] + t <==> a == b && s <= t
  {
    if [a] + s <= [b] + t {
      assert ([a] + s)[0] == ([b] + t)[0];
      assert ([a] + s)[1..] == s && ([b] + t)[1..] == t;
      assert forall i | 0 <= i < |s| :: s[i] == ([a] + s)[i + 1] == ([b] + t)[i + 1] == t[i];
    }
  }

  lemma FenceOfParts(parts: seq<Part>)
    requires forall k | 0 <= k < |parts| :: CleanPart(parts[k])
    ensures StartsAt(JoinParts(parts), 0, FENCE) == FenceParts(parts)
  {
    hide JoinParts;
    TicksOfParts(parts, 3);
    assert Ticks(3) == FENCE;
    assert TickParts(parts, 3) == FenceParts(parts) by {
      if |parts| >= 3 {
        assert parts[1..][0] == parts[1] && parts[1..][1..] == parts[2..];
      }
    }
  }

  lemma FenceOfLine(l: Line)
    requires Clean(l)
    ensures
      var s := Join(l);
      var i := SkipSpaces(s, 0);
      && (i == |s| <==> AllSpaces(l.head) && l.parts == [])
      && (StartsAt(s, i, FENCE) <==> AllSpaces(l.head) && FenceParts(l.parts))
  {
    hide SkipSpaces, IsSpace;
    var s, tail := Join(l), JoinParts(l.parts);
    TailStartsWithQuote(l, l.parts);
    SkipsStayInHead(l.head, tail, 0);
    var i := SkipSpaces(l.head, 0);
    if i == |l.head| {
      FenceOfParts(l.parts);
      assert s[i..] == tail;
      assert StartsAt(s, i, FENCE) == StartsAt(tail, 0, FENCE) by {
        if |tail| >= 3 {
          assert s[i..i + 3] == tail[..3];
        }
      }
    } else {
      assert s[i] == l.head[i];
      if i + 3 <= |s| {
        assert s[i..i + 3][0] == s[i];
      }
    }
  }

  lemma NamedHeadIsNotBlank(head: string, open: bool, name: string)
    requires HeadHit(head, open, name)
    ensures !AllSpaces(head)
  {
    var j := KeyStart(head);
    assert head[j..j + |NAME_KEY|] == NAME_KEY;
    assert head[j] == NAME_KEY[0] == 'n';
  }

  lemma BlankHeadStaysBlank(head: string, open: bool, ps: seq<Pattern>)
    requires Separated(ps)
    ensures AllSpaces(HeadAll(head, open, ps)) == AllSpaces(head)
  {
    hide AllSpaces, HeadHit, HeadAll, HeadAfter, GoodName;
    HeadAllAt(head, open, ps);
    if i: nat :| i < |ps| && HeadHit(head, open, ps[i].from) {
      NamesAreGood(ps, i, i);
      HeadHitAfter(head, open, ps[i]);
      NamedHeadIsNotBlank(head, open, ps[i].from);
      NamedHeadIsNotBlank(HeadAfter(head, open, ps[i]), open, ps[i].to);
    } else {
      assert NoHeadHit(head, open, ps);
    }
  }

  lemma EmptyBodyStaysEmpty(parts: seq<Part>, ps: seq<Pattern>, k: nat)
    requires Separated(ps) && k < |parts|
    ensures |RenameAll(parts, ps)| == |parts| && RenameAll(parts, ps)[k].quote == parts[k].quote
    ensures RenameAll(parts, ps)[k].body == "" <==> parts[k].body == ""
  {
    hide Separated, RenameAll;
    RenameAllAt(parts, ps, k);
    if i: nat :| i < |ps| && IsHit(parts, k, ps[i].from) {
      NamesAreGood(ps, i, i);
      HitIsToken(parts, k, ps[i].from);
    } else {
      assert Misses(parts, k, ps);
    }
  }

  lemma FencePartsStay(parts: seq<Part>, ps: seq<Pattern>)
    requires Separated(ps)
    ensures FenceParts(RenameAll(parts, ps)) == FenceParts(parts)
  {
    hide Separated, RenameAll;
    RenameAllKeepsLength(parts, ps);
    if |parts| >= 3 {
      EmptyBodyStaysEmpty(parts, ps, 0);
      EmptyBodyStaysEmpty(parts, ps, 1);
      EmptyBodyStaysEmpty(parts, ps, 2);
    }
  }

  lemma StretchKeepsFence(s: string, ps: seq<Pattern>)
    requires Separated(ps)
    ensures
      var t := RewriteStretch(s, ps);
      && (SkipSpaces(t, 0) == |t| <==> SkipSpaces(s, 0) == |s|)
      && StartsAt(t, SkipSpaces(t, 0), FENCE) == StartsAt(s, SkipSpaces(s, 0), FENCE)
  {
    hide Separated, RewriteStretch, Join, Split, HeadAll, RenameAll, AllSpaces, StartsAt, SkipSpaces, FenceParts, Clean;
    var l := Split(s);
    StretchTwice(s, ps, ps);
    FenceOfLine(l);
    FenceOfLine(LineAfter(l, ps));
    BlankHeadStaysBlank(l.head, l.parts == [], ps);
    FencePartsStay(l.parts, ps);
  }

  lemma {:induction false} RewritingKeepsFences(line: TextLine, ps: seq<Pattern>)
    requires Separated(ps)
    ensures IsFence(RewriteLine(line, ps)) == IsFence(line)
    decreases line
  {
    if line != [] {
      hide Separated, StartsAt, SkipSpaces, RewriteStretch;
      StretchKeepsFence(line[0], ps);
      RewritingKeepsFences(line[1..], ps);
    }
  }

  lemma {:induction false} RewritingKeepsInside(kind: Kind, text: seq<TextLine>, ps: seq<Pattern>, k: nat)
    requires Separated(ps) && k <= |text|
    ensures InsideAt(RewriteText(kind, text, ps), k) == InsideAt(text, k)
    decreases k
  {
    if k > 0 {
      hide Separated, IsFence, RewriteLine;
      RewritingKeepsFences(text[k - 1], ps);
      RewritingKeepsInside(kind, text, ps, k - 1);
    }
  }

  /** The pass may touch the same lines after it as before. */
  lemma RewritingKeepsEligibility(kind: Kind, text: seq<TextLine>, ps: seq<Pattern>, k: nat)
    requires Separated(ps) && k < |text|
    ensures Eligible(kind, RewriteText(kind, text, ps), k) == Eligible(kind, text, k)
  {
    hide Separated, IsFence, RewriteLine, InsideAt;
    RewritingKeepsFences(text[k], ps);
    RewritingKeepsInside(kind, text, ps, k);
  }

  // ---- The laws on texts -------------------------------------------------------------------------------------------

  lemma {:induction false} LineTwice(line: TextLine, ps: seq<Pattern>)
    requires Separated(ps)
    ensures RewriteLine(RewriteLine(line, ps), ps) == RewriteLine(line, ps)
            <==> forall i | 0 <= i < |line| :: Unshared(line[i], ps)
    decreases line
  {
    if line != [] {
      hide Separated, RewriteStretch, Unshared;
      StretchIdempotence(line[0], ps);
      LineTwice(line[1..], ps);
      assert forall i | 1 <= i < |line| :: line[i] == line[1..][i - 1];
      var one, more := [RewriteStretch(line[0], ps)], RewriteLine(line[1..], ps);
      assert (one + more)[1..] == more;
      HeadAndTail(RewriteStretch(one[0], ps), RewriteLine(more, ps), one[0], more);
    }
  }

  lemma HeadAndTail<T>(a: T, s: seq<T>, b: T, t: seq<T>)
    ensures [a] + s == [b] + t <==> a == b && s == t
  {
    if [a] + s == [b] + t {
      assert ([a] + s)[0] == ([b] + t)[0];
      assert ([a] + s)[1..] == s && ([b] + t)[1..] == t;
    }
  }

  lemma {:induction false} LineBack(line: TextLine, ps: seq<Pattern>)
    requires Separated(ps)
    ensures RewriteLine(RewriteLine(line, ps), Reversed(ps)) == line
            <==> forall i | 0 <= i < |line| :: CanGoBack(line[i], ps)
    decreases line
  {
    if line != [] {
      hide Separated, RewriteStretch, CanGoBack, Reversed;
      StretchReversal(line[0], ps);
      LineBack(line[1..], ps);
      assert forall i | 1 <= i < |line| :: line[i] == line[1..][i - 1];
      var one, more := [RewriteStretch(line[0], ps)], RewriteLine(line[1..], ps);
      assert (one + more)[1..] == more && line == [line[0]] + line[1..];
      HeadAndTail(RewriteStretch(one[0], Reversed(ps)), RewriteLine(more, Reversed(ps)), line[0], line[1..]);
    }
  }

  /**
   A second pass over a text changes nothing exactly when on its eligible lines no two tokens of a name share a quote.
   */
  lemma TextIdempotence(kind: Kind, text: seq<TextLine>, ps: seq<Pattern>)
    requires Separated(ps)
    ensures
      var after := RewriteText(kind, text, ps);
      RewriteText(kind, after, ps) == after
      <==> forall k, i | 0 <= k < |text| && Eligible(kind, text, k) && 0 <= i < |text[k]| :: Unshared(text[k][i], ps)
  {
    hide Separated, RewriteLine, Unshared, Eligible;
    var after := RewriteText(kind, text, ps);
    forall k | 0 <= k < |text|
      ensures RewriteText(kind, after, ps)[k] == after[k]
              <==> (Eligible(kind, text, k) ==> forall i | 0 <= i < |text[k]| :: Unshared(text[k][i], ps))
    {
      RewritingKeepsEligibility(kind, text, ps, k);
      LineTwice(text[k], ps);
    }
  }

  /** The reverse pass restores a text exactly when each stretch of its eligible lines can go back. */
  lemma TextReversal(kind: Kind, text: seq<TextLine>, ps: seq<Pattern>)
    requires Separated(ps)
    ensures
      RewriteText(kind, RewriteText(kind, text, ps), Reversed(ps)) == text
      <==> forall k, i | 0 <= k < |text| && Eligible(kind, text, k) && 0 <= i < |text[k]| :: CanGoBack(text[k][i], ps)
  {
    hide Separated, RewriteLine, CanGoBack, Eligible, Reversed;
    var after := RewriteText(kind, text, ps);
    forall k | 0 <= k < |text|
      ensures RewriteText(kind, after, Reversed(ps))[k] == text[k]
              <==> (Eligible(kind, text, k) ==> forall i | 0 <= i < |text[k]| :: CanGoBack(text[k][i], ps))
    {
      RewritingKeepsEligibility(kind, text, ps, k);
      LineBack(text[k], ps);
    }
  }
}
