/**
 What rename passes do to the text before the first quote of a line, where the scalar of a YAML `name:` line stands.
 */
module RescopeYaml {
  import opened Strings
  import opened Wrappers
  import opened Rescope
  import opened RescopePieces
  import opened RescopeTokens

  /** Blanks up to the end of the line, or blanks and a comment; `open` says that the line ends with the head. */
  predicate Closes(head: string, i: nat, open: bool)
    requires i <= |head|
  {
    var j := SkipBlanks(head, i);
    if j == |head| then open else head[j] == '#'
  }

  predicate HeadHit(head: string, open: bool, name: string) {
    var n := ScalarStart(head);
    n.Some? && StartsAt(head, n.value, name) && Closes(head, n.value + |name|, open)
  }

  function HeadAfter(head: string, open: bool, p: Pattern): string {
    if HeadHit(head, open, p.from) then
      var n := ScalarStart(head).value;
      head[..n] + p.to + head[n + |p.from|..]
    else head
  }

  // ---- The rule looks at the head only -----------------------------------------------------------------------------

  lemma SkipSpacesIs(s: string, i: nat, j: nat)
    requires i <= j <= |s| && (forall k | i <= k < j :: IsSpace(s[k])) && (j < |s| ==> !IsSpace(s[j]))
    ensures SkipSpaces(s, i) == j
  {}

  lemma SkipBlanksIs(s: string, i: nat, j: nat)
    requires i <= j <= |s| && (forall k | i <= k < j :: IsBlank(s[k])) && (j < |s| ==> !IsBlank(s[j]))
    ensures SkipBlanks(s, i) == j
  {}

  /** The head ends the line or a quote follows it. */
  ghost predicate HeadOf(head: string, tail: string) {
    QuoteFree(head) && (tail == "" || IsQuote(tail[0]))
  }

  lemma SkipsStayInHead(head: string, tail: string, i: nat)
    requires HeadOf(head, tail) && i <= |head|
    ensures SkipSpaces(head + tail, i) == SkipSpaces(head, i)
    ensures SkipBlanks(head + tail, i) == SkipBlanks(head, i)
  {
    SkipSpacesIs(head + tail, i, SkipSpaces(head, i));
    SkipBlanksIs(head + tail, i, SkipBlanks(head, i));
  }

  lemma CrossingHoldsQuote(head: string, tail: string, i: nat, word: string)
    requires HeadOf(head, tail) && i <= |head| < i + |word| && StartsAt(head + tail, i, word)
    ensures !QuoteFree(word)
  {
    var s := head + tail;
    assert word[|head| - i] == s[i..i + |word|][|head| - i] == s[|head|] == tail[0];
  }

  lemma StartsStayInHead(head: string, tail: string, i: nat, word: string)
    requires HeadOf(head, tail) && i <= |head| && QuoteFree(word)
    ensures StartsAt(head + tail, i, word) == StartsAt(head, i, word)
  {
    var s := head + tail;
    if i + |word| <= |head| {
      assert s[i..i + |word|] == head[i..i + |word|];
    } else if StartsAt(s, i, word) {
      CrossingHoldsQuote(head, tail, i, word);
    }
  }

  lemma ScalarStaysInHead(head: string, tail: string)
    requires HeadOf(head, tail)
    ensures ScalarStart(head + tail) == ScalarStart(head)
  {
    hide IsQuote, IsSpace, SkipSpaces, SkipBlanks, StartsAt, HeadOf;
    var s := head + tail;
    SkipsStayInHead(head, tail, 0);
    var i := SkipSpaces(head, 0);
    NoQuoteInKey();
    HeadThenQuote(head, tail, i);
    if i < |head| && head[i] == '-' {
      SkipsStayInHead(head, tail, i + 1);
    }
    var j := KeyStart(head);
    assert KeyStart(s) == j;
    StartsStayInHead(head, tail, j, NAME_KEY);
    if StartsAt(head, j, NAME_KEY) {
      StartFits(head, j, NAME_KEY);
      SkipsStayInHead(head, tail, j + |NAME_KEY|);
    }
  }

  lemma HeadThenQuote(head: string, tail: string, i: nat)
    requires HeadOf(head, tail) && i <= |head|
    ensures i < |head| ==> (head + tail)[i] == head[i]
    ensures i < |head + tail| && (head + tail)[i] == '-' ==> i < |head|
  {}

  lemma StartFits(s: string, i: nat, word: string)
    requires StartsAt(s, i, word)
    ensures i + |word| <= |s|
  {}

  lemma NoQuoteInKey()
    ensures QuoteFree(NAME_KEY)
  {}

  lemma YamlOnHead(head: string, tail: string, p: Pattern)
    requires HeadOf(head, tail) && GoodName(p.from)
    ensures ReplaceYamlName(head + tail, p) == HeadAfter(head, tail == "", p) + tail
  {
    hide HeadOf, ScalarStart, SkipBlanks, StartsAt;
    var s := head + tail;
    ScalarStaysInHead(head, tail);
    if ScalarStart(head).Some? {
      var n := ScalarStart(head).value;
      GoodIsQuoteFree(p.from);
      StartsStayInHead(head, tail, n, p.from);
      if StartsAt(head, n, p.from) {
        StartFits(head, n, p.from);
        CommentStaysInHead(head, tail, n + |p.from|);
        if OnlyComment(s, n + |p.from|) {
          assert s[..n] == head[..n] && s[n + |p.from|..] == head[n + |p.from|..] + tail;
        }
      }
    }
  }

  lemma GoodIsQuoteFree(name: string)
    requires GoodName(name)
    ensures QuoteFree(name)
  {}

  lemma CommentStaysInHead(head: string, tail: string, i: nat)
    requires HeadOf(head, tail) && i <= |head|
    ensures OnlyComment(head + tail, i) == Closes(head, i, tail == "")
  {
    SkipsStayInHead(head, tail, i);
  }

  // ---- One name at a time ------------------------------------------------------------------------------------------

  lemma LongerNameGoesOn(head: string, open: bool, n: nat, a: string, b: string)
    requires GoodName(b) && StartsAt(head, n, b) && |a| < |b|
    ensures n + |a| <= |head| && !Closes(head, n + |a|, open)
  {
    var i := n + |a|;
    assert head[i] == head[n..n + |b|][|a|] == b[|a|];
    SkipBlanksIs(head, i, i);
  }

  lemma HeadNameIsUnique(head: string, open: bool, a: string, b: string)
    requires GoodName(a) && GoodName(b) && HeadHit(head, open, a) && HeadHit(head, open, b)
    ensures a == b
  {
    hide GoodName, ScalarStart, Closes;
    var n := ScalarStart(head).value;
    if |a| < |b| {
      LongerNameGoesOn(head, open, n, a, b);
    } else if |b| < |a| {
      LongerNameGoesOn(head, open, n, b, a);
    } else {
      assert a == head[n..n + |a|] == b;
    }
  }

  ghost predicate AgreeBelow(s: string, t: string, n: nat)
    requires n <= |s| && n <= |t|
  {
    forall k | 0 <= k < n :: s[k] == t[k]
  }

  lemma KeyStartKeeps(head: string, other: string, n: nat)
    requires n <= |head| && n <= |other| && AgreeBelow(head, other, n) && KeyStart(head) < n
    ensures KeyStart(other) == KeyStart(head)
  {
    hide SkipSpaces, SkipBlanks, IsSpace;
    var i := SkipSpaces(head, 0);
    SkipSpacesIs(other, 0, i);
    if head[i] == '-' {
      SkipSpacesIs(other, i + 1, KeyStart(head));
    }
  }

  lemma ScalarStartKeeps(head: string, other: string, n: nat)
    requires ScalarStart(head) == Some(n) && n < |other| && other[..n] == head[..n] && !IsBlank(other[n])
    ensures ScalarStart(other) == Some(n)
  {
    hide SkipSpaces, SkipBlanks, IsSpace, IsBlank, KeyStart;
    var j := KeyStart(head);
    assert AgreeBelow(head, other, n) by {
      assert forall k | 0 <= k < n :: other[k] == other[..n][k] == head[..n][k] == head[k];
    }
    KeyStartKeeps(head, other, n);
    assert other[j..j + |NAME_KEY|] == head[j..j + |NAME_KEY|];
    SkipBlanksIs(other, j + |NAME_KEY|, n);
  }

  /** A renamed scalar is the new name, and renaming it back restores the head. */
  lemma HeadHitAfter(head: string, open: bool, p: Pattern)
    requires GoodName(p.to) && HeadHit(head, open, p.from)
    ensures HeadHit(HeadAfter(head, open, p), open, p.to)
    ensures HeadAfter(HeadAfter(head, open, p), open, Flip(p)) == head
  {
    hide ScalarStart, Closes, GoodName;
    var n := ScalarStart(head).value;
    var pre, sub := head[..n], head[n + |p.from|..];
    var other := HeadAfter(head, open, p);
    Assembled(pre, p.to, sub);
    NameStart(p.to);
    ScalarStartKeeps(head, other, n);
    ClosesSuffix(head, n + |p.from|, other, n + |p.to|, open);
    assert head == pre + p.from + sub;
  }

  lemma Assembled(pre: string, name: string, sub: string)
    ensures
      var s := pre + name + sub;
      && s[..|pre|] == pre && s[|pre|..|pre| + |name|] == name && s[|pre| + |name|..] == sub
      && (name != "" ==> s[|pre|] == name[0])
  {}

  lemma NameStart(name: string)
    requires GoodName(name)
    ensures name != "" && !IsBlank(name[0])
  {}

  lemma ClosesSuffix(s: string, i: nat, t: string, j: nat, open: bool)
    requires i <= |s| && j <= |t| && s[i..] == t[j..]
    ensures Closes(t, j, open) == Closes(s, i, open)
  {
    var n := SkipBlanks(s, i) - i;
    BlanksOfSuffix(s, i, t, j);
    assert |s| - i == |t| - j;
    if i + n < |s| {
      assert t[j + n] == t[j..][n] == s[i..][n] == s[i + n];
    }
  }

  lemma BlanksOfSuffix(s: string, i: nat, t: string, j: nat)
    requires i <= |s| && j <= |t| && s[i..] == t[j..]
    ensures SkipBlanks(t, j) - j == SkipBlanks(s, i) - i
  {
    var n := SkipBlanks(s, i) - i;
    assert |s| - i == |t| - j;
    forall k | j <= k < j + n ensures IsBlank(t[k]) {
      assert t[k] == t[j..][k - j] == s[i..][k - j] == s[i + (k - j)];
    }
    if j + n < |t| {
      assert t[j + n] == t[j..][n] == s[i..][n] == s[i + n];
    }
    SkipBlanksIs(t, j, j + n);
  }

  // ---- All passes --------------------------------------------------------------------------------------------------

  function HeadAll(head: string, open: bool, ps: seq<Pattern>): string
    decreases ps
  {
    if ps == [] then head else HeadAll(HeadAfter(head, open, ps[0]), open, ps[1..])
  }

  ghost predicate NoHeadHit(head: string, open: bool, ps: seq<Pattern>) {
    forall i | 0 <= i < |ps| :: !HeadHit(head, open, ps[i].from)
  }

  lemma ApartIsDifferent(a: string, b: string)
    requires Apart(a, b)
    ensures a != b
  {
    assert a[..|a|] == a;
  }

  lemma {:induction false} HeadAllAt(head: string, open: bool, ps: seq<Pattern>)
    requires Separated(ps)
    ensures NoHeadHit(head, open, ps) ==> HeadAll(head, open, ps) == head
    ensures forall i | 0 <= i < |ps| && HeadHit(head, open, ps[i].from) ::
              HeadAll(head, open, ps) == HeadAfter(head, open, ps[i])
    decreases ps
  {
    if ps != [] {
      hide HeadHit, Apart, GoodName;
      var p, rest := ps[0], ps[1..];
      SeparatedRest(ps);
      HeadAllAt(HeadAfter(head, open, p), open, rest);
      if HeadHit(head, open, p.from) {
        OnlyTheNewName(head, open, ps, 0);
        forall i | 0 <= i < |ps| && HeadHit(head, open, ps[i].from) ensures i == 0 {
          HeadNameIsUnique(head, open, p.from, ps[i].from);
          if i > 0 {
            ApartIsDifferent(p.from, ps[i].from);
          }
        }
      } else {
        forall i | 0 <= i < |ps| && HeadHit(head, open, ps[i].from) ensures i > 0 && rest[i - 1] == ps[i] {}
      }
    }
  }

  lemma OnlyTheNewName(head: string, open: bool, ps: seq<Pattern>, j: nat)
    requires Separated(ps) && j < |ps| && HeadHit(head, open, ps[j].from)
    ensures NoHeadHit(HeadAfter(head, open, ps[j]), open, ps)
  {
    hide HeadHit, Apart, GoodName;
    var other := HeadAfter(head, open, ps[j]);
    HeadHitAfter(head, open, ps[j]);
    forall i | 0 <= i < |ps| ensures !HeadHit(other, open, ps[i].from) {
      if HeadHit(other, open, ps[i].from) {
        HeadNameIsUnique(other, open, ps[i].from, ps[j].to);
        ApartIsDifferent(ps[i].from, ps[j].to);
      }
    }
  }

  lemma HeadTwice(head: string, open: bool, ps: seq<Pattern>)
    requires Separated(ps)
    ensures HeadAll(HeadAll(head, open, ps), open, ps) == HeadAll(head, open, ps)
  {
    hide HeadHit, Separated, HeadAll;
    HeadAllAt(head, open, ps);
    if i: nat :| i < |ps| && HeadHit(head, open, ps[i].from) {
      OnlyTheNewName(head, open, ps, i);
    }
    HeadAllAt(HeadAll(head, open, ps), open, ps);
  }

  /** The scalar bears none of the new names. */
  ghost predicate NoNewName(head: string, open: bool, ps: seq<Pattern>) {
    forall i | 0 <= i < |ps| :: !HeadHit(head, open, ps[i].to)
  }

  lemma HeadBack(head: string, open: bool, ps: seq<Pattern>)
    requires Separated(ps)
    ensures HeadAll(HeadAll(head, open, ps), open, Reversed(ps)) == head <==> NoNewName(head, open, ps)
  {
    hide HeadHit, Separated, HeadAll, GoodName, HeadAfter;
    var rs := Reversed(ps);
    var other := HeadAll(head, open, ps);
    ReversedIsSeparated(ps);
    HeadAllAt(head, open, ps);
    HeadAllAt(other, open, rs);
    if i: nat :| i < |ps| && HeadHit(head, open, ps[i].from) {
      NamesAreGood(ps, i, i);
      HeadHitAfter(head, open, ps[i]);
      assert HeadHit(other, open, rs[i].from);
      forall j: nat | j < |ps| ensures !HeadHit(head, open, ps[j].to) {
        if HeadHit(head, open, ps[j].to) {
          NamesAreGood(ps, i, j);
          HeadNameIsUnique(head, open, ps[i].from, ps[j].to);
        }
      }
    } else if j: nat :| j < |ps| && HeadHit(head, open, ps[j].to) {
      assert NoHeadHit(head, open, ps);
      assert HeadHit(other, open, rs[j].from);
      NamesAreGood(ps, j, j);
      HeadHitAfter(head, open, rs[j]);
    } else {
      assert NoHeadHit(head, open, ps) && NoHeadHit(other, open, rs);
    }
  }

  lemma NamesAreGood(ps: seq<Pattern>, i: nat, j: nat)
    requires Separated(ps) && i < |ps| && j < |ps|
    ensures GoodName(ps[i].from) && GoodName(ps[j].to) && ps[i].from != ps[j].to
  {
    RowsAreApart(ps, i, j);
    ApartIsDifferent(ps[i].from, ps[j].to);
  }

  lemma HeadOrderIsIrrelevant(head: string, open: bool, ps: seq<Pattern>, qs: seq<Pattern>)
    requires Separated(ps) && Separated(qs) && forall p :: p in ps <==> p in qs
    ensures HeadAll(head, open, ps) == HeadAll(head, open, qs)
  {
    hide HeadHit, Separated, HeadAll, HeadAfter;
    HeadAllAt(head, open, ps);
    HeadAllAt(head, open, qs);
    if i: nat :| i < |ps| && HeadHit(head, open, ps[i].from) {
      assert ps[i] in qs;
      var j: nat :| j < |qs| && qs[j] == ps[i];
    } else {
      forall j: nat | j < |qs| ensures !HeadHit(head, open, qs[j].from) {
        assert qs[j] in ps;
      }
      assert NoHeadHit(head, open, ps) && NoHeadHit(head, open, qs);
    }
  }
}
