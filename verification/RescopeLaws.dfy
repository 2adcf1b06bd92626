/**
 The laws of the generic rescope pass: when a second pass changes nothing, when the reverse pass restores a text, and
 that the rename table meets what both rest on.
 */
module RescopeLaws {
  import opened Rescope
  import opened RescopePieces
  import opened RescopeTokens
  import opened RescopeYaml

  // ---- One stretch of a line ---------------------------------------------------------------------------------------

  function LineAfter(l: Line, ps: seq<Pattern>): Line {
    Line(HeadAll(l.head, l.parts == [], ps), RenameAll(l.parts, ps))
  }

  lemma SpliceIsQuoteFree(s: string, i: nat, j: nat, name: string)
    requires QuoteFree(s) && GoodName(name) && i <= j <= |s|
    ensures QuoteFree(s[..i] + name + s[j..])
  {}

  lemma CleanAfterPass(l: Line, p: Pattern)
    requires Clean(l) && GoodName(p.to)
    ensures Clean(Line(HeadAfter(l.head, l.parts == [], p), RenameParts(l.parts, p, false)))
  {
    hide ScalarStart, RenameParts, Hit, QuoteFree, GoodName, Closes, TokenAt;
    RenamePartsAt(l.parts, p, false);
    var after := RenameParts(l.parts, p, false);
    forall k | 0 <= k < |after| ensures CleanPart(after[k]) {
      assert CleanPart(l.parts[k]);
      if IsHit(l.parts, k, p.from) {
        HitIsToken(l.parts, k, p.from);
        var body := l.parts[k].body;
        SpliceIsQuoteFree(body, 0, |p.from|, p.to);
        assert body[..0] + p.to + body[|p.from|..] == Renamed(body, p);
      }
    }
    if HeadHit(l.head, l.parts == [], p.from) {
      var n := ScalarStart(l.head).value;
      SpliceIsQuoteFree(l.head, n, n + |p.from|, p.to);
    }
  }

  lemma StretchAfterPass(l: Line, p: Pattern)
    requires Clean(l) && GoodName(p.from)
    ensures ReplaceYamlName(ReplaceTokens(Join(l), 0, p), p)
            == Join(Line(HeadAfter(l.head, l.parts == [], p), RenameParts(l.parts, p, false)))
  {
    hide HeadHit, ScalarStart, RenameParts, ReplaceTokens, ReplaceYamlName, JoinParts, GoodName, PartsFrom, HeadAfter;
    var s := Join(l);
    SplitOfJoin(l);
    ReplaceTokensOnParts(s, 0, p);
    assert s[0..NextQuote(s, 0)] == l.head;
    RenamePartsAt(l.parts, p, false);
    var after := RenameParts(l.parts, p, false);
    TailStartsWithQuote(l, after);
    YamlOnHead(l.head, JoinParts(after), p);
  }

  lemma TailStartsWithQuote(l: Line, after: seq<Part>)
    requires Clean(l) && |after| == |l.parts| && forall k | 0 <= k < |after| :: after[k].quote == l.parts[k].quote
    ensures HeadOf(l.head, JoinParts(after)) && (JoinParts(after) == "" <==> l.parts == [])
  {
    if l.parts != [] {
      assert CleanPart(l.parts[0]);
    }
  }

  /** The passes over the text are the passes over its head and its bodies. */
  lemma {:induction false} RewriteOnLine(l: Line, ps: seq<Pattern>)
    requires Clean(l) && Separated(ps)
    ensures RewriteStretch(Join(l), ps) == Join(LineAfter(l, ps)) && Clean(LineAfter(l, ps))
    decreases ps
  {
    if ps != [] {
      hide HeadAfter, RenameParts, ReplaceTokens, ReplaceYamlName, JoinParts, GoodName, Apart, Join, Clean;
      var p := ps[0];
      assert GoodName(p.from) && GoodName(p.to);
      SeparatedRest(ps);
      StretchAfterPass(l, p);
      CleanAfterPass(l, p);
      RenamePartsAt(l.parts, p, false);
      RewriteOnLine(Line(HeadAfter(l.head, l.parts == [], p), RenameParts(l.parts, p, false)), ps[1..]);
    }
  }

  /** No two tokens of one name share a quote. */
  ghost predicate Unshared(s: string, ps: seq<Pattern>) {
    !SharesQuote(Split(s).parts, ps)
  }

  /**
   No YAML scalar bears a new name, and each token of a new name shares its opening quote with a token of the old name
   that is renamed.
   */
  ghost predicate CanGoBack(s: string, ps: seq<Pattern>) {
    NoNewName(Split(s).head, Split(s).parts == [], ps) && Restorable(Split(s).parts, ps)
  }

  ghost predicate HoldsNoNewName(s: string, ps: seq<Pattern>) {
    && NoNewName(Split(s).head, Split(s).parts == [], ps)
    && forall i, k {:trigger TokenAt(Split(s).parts, k, ps[i].to)} | 0 <= i < |ps| && 0 <= k < |Split(s).parts| ::
         !TokenAt(Split(s).parts, k, ps[i].to)
  }

  lemma StretchTwice(s: string, ps: seq<Pattern>, qs: seq<Pattern>)
    requires Separated(ps) && Separated(qs)
    ensures
      var l := Split(s);
      && RewriteStretch(s, ps) == Join(LineAfter(l, ps))
      && RewriteStretch(RewriteStretch(s, ps), qs) == Join(LineAfter(LineAfter(l, ps), qs))
      && Clean(l) && Clean(LineAfter(l, ps)) && Clean(LineAfter(LineAfter(l, ps), qs))
      && Join(l) == s && (LineAfter(l, ps).parts == [] <==> l.parts == [])
  {
    hide *;
    JoinOfSplit(s);
    RewriteOnLine(Split(s), ps);
    RewriteOnLine(LineAfter(Split(s), ps), qs);
    PartsAfter(Split(s), ps);
  }

  lemma PartsAfter(l: Line, ps: seq<Pattern>)
    ensures LineAfter(l, ps).parts == [] <==> l.parts == []
  {
    RenameAllKeepsLength(l.parts, ps);
  }

  lemma JoinIsInjective(a: Line, b: Line)
    requires Clean(a) && Clean(b)
    ensures Join(a) == Join(b) <==> a == b
  {
    SplitOfJoin(a);
    SplitOfJoin(b);
  }

  /** A second pass changes nothing exactly when no two tokens of one name share a quote. */
  lemma StretchIdempotence(s: string, ps: seq<Pattern>)
    requires Separated(ps)
    ensures RewriteStretch(RewriteStretch(s, ps), ps) == RewriteStretch(s, ps) <==> Unshared(s, ps)
  {
    hide *;
    StretchTwice(s, ps, ps);
    var l := Split(s);
    var after := LineAfter(l, ps);
    JoinIsInjective(LineAfter(after, ps), after);
    LinesTwice(l, ps);
    UnsharedIs(s, ps);
  }

  lemma UnsharedIs(s: string, ps: seq<Pattern>)
    ensures Unshared(s, ps) == !SharesQuote(Split(s).parts, ps)
  {}

  lemma LinesTwice(l: Line, ps: seq<Pattern>)
    requires Separated(ps)
    ensures LineAfter(LineAfter(l, ps), ps) == LineAfter(l, ps) <==> !SharesQuote(l.parts, ps)
  {
    hide Separated, SharesQuote, HeadAll, RenameAll;
    HeadTwice(l.head, l.parts == [], ps);
    RenamingTwice(l.parts, ps);
    RenameAllKeepsLength(l.parts, ps);
  }

  /** The reverse pass restores a stretch exactly when it can go back; so it does whenever no new name occurs in it. */
  lemma StretchReversal(s: string, ps: seq<Pattern>)
    requires Separated(ps)
    ensures RewriteStretch(RewriteStretch(s, ps), Reversed(ps)) == s <==> CanGoBack(s, ps)
    ensures HoldsNoNewName(s, ps) ==> CanGoBack(s, ps)
  {
    hide Separated, RewriteStretch, LineAfter, Clean, Join, Split, Reversed, NoNewName, TokenAt, IsHit;
    ReversedIsSeparated(ps);
    StretchTwice(s, ps, Reversed(ps));
    var l := Split(s);
    JoinIsInjective(LineAfter(LineAfter(l, ps), Reversed(ps)), l);
    LinesBack(l, ps);
  }

  lemma LinesBack(l: Line, ps: seq<Pattern>)
    requires Separated(ps)
    ensures LineAfter(LineAfter(l, ps), Reversed(ps)) == l
            <==> NoNewName(l.head, l.parts == [], ps) && Restorable(l.parts, ps)
  {
    hide Separated, HeadAll, RenameAll, NoNewName, Restorable, Reversed;
    HeadBack(l.head, l.parts == [], ps);
    GoingBack(l.parts, ps);
    RenameAllKeepsLength(l.parts, ps);
  }

  /** The rows may be tried in any order, by falling length or as the table lists them. */
  lemma TableOrderIsIrrelevant(s: string, ps: seq<Pattern>, qs: seq<Pattern>)
    requires Separated(ps) && Separated(qs) && forall p :: p in ps <==> p in qs
    ensures RewriteStretch(s, ps) == RewriteStretch(s, qs)
  {
    hide Separated, RewriteStretch, Split, HeadAll, RenameAll, Clean, Join;
    var l := Split(s);
    StretchTwice(s, ps, qs);
    StretchTwice(s, qs, ps);
    HeadOrderIsIrrelevant(l.head, l.parts == [], ps, qs);
    OrderOfRowsIsIrrelevant(l.parts, ps, qs);
  }

  /** The rows that are not switched off for a file. */
  function ActiveRows(ps: seq<Pattern>, skipped: set<string>): seq<Pattern>
    decreases ps
  {
    if ps == [] then []
    else (if ps[0].from in skipped then [] else [ps[0]]) + ActiveRows(ps[1..], skipped)
  }

  lemma {:induction false} ActiveRowsAreRows(ps: seq<Pattern>, skipped: set<string>, p: Pattern)
    ensures p in ActiveRows(ps, skipped) <==> p in ps && p.from !in skipped
    decreases ps
  {
    if ps != [] {
      ActiveRowsAreRows(ps[1..], skipped, p);
      assert p in ps <==> p == ps[0] || p in ps[1..];
    }
  }

  /** Switching rows off keeps a table separated, so all laws hold for a file with skipped names. */
  lemma {:induction false} ActiveRowsAreSeparated(ps: seq<Pattern>, skipped: set<string>)
    requires Separated(ps)
    ensures Separated(ActiveRows(ps, skipped))
    decreases ps
  {
    if ps != [] {
      hide Apart, GoodName;
      var active := ActiveRows(ps[1..], skipped);
      SeparatedRest(ps);
      ActiveRowsAreSeparated(ps[1..], skipped);
      if ps[0].from !in skipped {
        assert ActiveRows(ps, skipped) == [ps[0]] + active;
        forall i | 0 <= i < |active|
          ensures Apart(ps[0].from, active[i].from) && Apart(ps[0].to, active[i].to)
          ensures Apart(ps[0].from, active[i].to) && Apart(active[i].from, ps[0].to)
        {
          ActiveRowsAreRows(ps[1..], skipped, active[i]);
          assert active[i] in active;
          var j :| 0 <= j < |ps[1..]| && ps[1..][j] == active[i];
          RowsAreApart(ps, 0, j + 1);
          RowsAreApart(ps, j + 1, 0);
        }
      } else {
        assert ActiveRows(ps, skipped) == active;
      }
    }
  }

  // ---- The rename table --------------------------------------------------------------------------------------------

  const RENAMES := [
    Pattern("cordis", "@deepseek-ai/cordis"),
    Pattern("cosmokit", "@deepseek-ai/cosmokit"),
    Pattern("schemastery", "@deepseek-ai/schemastery"),
    Pattern("@cordisjs/plugin-loader", "@deepseek-ai/cordis-plugin-loader"),
    Pattern("@cordisjs/plugin-include", "@deepseek-ai/cordis-plugin-include"),
    Pattern("@cordisjs/plugin-group", "@deepseek-ai/cordis-plugin-group"),
    Pattern("@cordisjs/plugin-timer", "@deepseek-ai/cordis-plugin-timer"),
    Pattern("@cordisjs/plugin-hmr", "@deepseek-ai/cordis-plugin-hmr"),
    Pattern("@cordisjs/plugin-logger-console", "@deepseek-ai/cordis-plugin-logger-console")]

  lemma DifferingCharacter(a: string, b: string, i: nat)
    requires i < |a| && i < |b| && a[i] != b[i]
    ensures Apart(a, b)
  {
    if |a| <= |b| {
      assert b[..|a|][i] == b[i];
    } else {
      assert a[..|b|][i] == a[i];
    }
  }

  lemma TableSidesAreApart(i: nat, j: nat)
    requires i < |RENAMES| && j < |RENAMES|
    ensures Apart(RENAMES[i].from, RENAMES[j].to)
  {
    DifferingCharacter(RENAMES[i].from, RENAMES[j].to, if i < 3 then 0 else 1);
  }

  lemma TableFromsAreApart(i: nat, j: nat)
    requires i < j < |RENAMES|
    ensures Apart(RENAMES[i].from, RENAMES[j].from)
  {
    DifferingCharacter(RENAMES[i].from, RENAMES[j].from, if j < 2 then 2 else if i < 3 then 0 else 19);
  }

  lemma TableTosAreApart(i: nat, j: nat)
    requires i < j < |RENAMES|
    ensures Apart(RENAMES[i].to, RENAMES[j].to)
  {
    if i == 0 && j >= 3 {
      assert RENAMES[j].to[19] == '-';
    } else {
      DifferingCharacter(RENAMES[i].to, RENAMES[j].to,
                         if j == 1 then 15 else if j == 2 || i == 2 then 13 else if i < 3 then 15 else 29);
    }
  }

  /** The characters of package names. */
  predicate IsNameChar(c: char) {
    'a' <= c <= 'z' || c == '@' || c == '/' || c == '-'
  }

  lemma NameCharsMakeGoodNames(name: string)
    requires name != "" && forall i | 0 <= i < |name| :: IsNameChar(name[i])
    ensures GoodName(name)
  {}

  lemma OldPackageNamesAreGood(i: nat)
    requires i < 3
    ensures GoodName(RENAMES[i].from)
  {
    hide GoodName;
    NameCharsMakeGoodNames(RENAMES[i].from);
  }

  lemma NewPackageNamesAreGood(i: nat)
    requires i < 3
    ensures GoodName(RENAMES[i].to)
  {
    hide GoodName;
    NameCharsMakeGoodNames(RENAMES[i].to);
  }

  lemma OldPluginNamesAreGood(i: nat)
    requires 3 <= i < 9
    ensures GoodName(RENAMES[i].from)
  {
    hide GoodName;
    NameCharsMakeGoodNames(RENAMES[i].from);
  }

  lemma FirstPluginNames(i: nat)
    requires 3 <= i < 6
    ensures GoodName(RENAMES[i].to)
  {
    hide GoodName;
    NameCharsMakeGoodNames(RENAMES[i].to);
  }

  lemma LastPluginNames(i: nat)
    requires 6 <= i < 9
    ensures GoodName(RENAMES[i].to)
  {
    hide GoodName;
    NameCharsMakeGoodNames(RENAMES[i].to);
  }

  /** The program's own table is one the laws hold for. */
  lemma TableIsSeparated()
    ensures Separated(RENAMES)
  {
    hide Apart, GoodName;
    var ps := RENAMES;
    assert |ps| == 9;
    hide RENAMES;
    forall i: nat | i < |ps| ensures GoodName(ps[i].from) && GoodName(ps[i].to) {
      if i < 3 {
        OldPackageNamesAreGood(i);
        NewPackageNamesAreGood(i);
      } else {
        OldPluginNamesAreGood(i);
        if i < 6 {
          FirstPluginNames(i);
        } else {
          LastPluginNames(i);
        }
      }
    }
    forall i: nat, j: nat | i < |ps| && j < |ps| ensures Apart(ps[i].from, ps[j].to) {
      TableSidesAreApart(i, j);
    }
    forall i: nat, j: nat | i < j < |ps| ensures Apart(ps[i].from, ps[j].from) && Apart(ps[i].to, ps[j].to) {
      TableFromsAreApart(i, j);
      TableTosAreApart(i, j);
    }
  }

  lemma QuotedTwice(name: string)
    ensures JoinParts([Part('\'', name), Part('\'', name), Part('\'', "")]) == "'" + name + ("'" + name + "'")
  {
    var a, b := Part('\'', name), Part('\'', "");
    JoinOne(b, []);
    assert [b] + [] == [b];
    JoinOne(a, [b]);
    assert [a] + [b] == [a, b];
    JoinOne(a, [a, b]);
    assert [a] + [a, b] == [a, a, b];
  }

  lemma SplitQuotedTwice(name: string)
    requires GoodName(name)
    ensures Split("'" + name + ("'" + name + "'")).parts == [Part('\'', name), Part('\'', name), Part('\'', "")]
  {
    var l := Line("", [Part('\'', name), Part('\'', name), Part('\'', "")]);
    QuotedTwice(name);
    assert forall k | 0 <= k < 3 :: CleanPart(l.parts[k]);
    assert Join(l) == "'" + name + ("'" + name + "'");
    SplitOfJoin(l);
  }

  /**
   Two tokens that share a quote: the first pass renames only one of them, so a second pass is not idle, for every
   row of every table.
   */
  lemma SharedQuoteIsMissed(ps: seq<Pattern>, i: nat)
    requires Separated(ps) && i < |ps|
    ensures
      var s := "'" + ps[i].from + ("'" + ps[i].from + "'");
      RewriteStretch(RewriteStretch(s, ps), ps) != RewriteStretch(s, ps)
  {
    hide Separated, Apart, RewriteStretch, Split;
    var name := ps[i].from;
    var s := "'" + name + ("'" + name + "'");
    NamesAreGood(ps, i, i);
    SplitQuotedTwice(name);
    var parts := Split(s).parts;
    assert name[..|name|] == name;
    assert TokenAt(parts, 0, ps[i].from) && TokenAt(parts, 0 + 1, ps[i].from);
    StretchIdempotence(s, ps);
  }

  /** A token that bears a new name before the pass is not restored, for every row of every table. */
  lemma NewNameIsNotRestored(ps: seq<Pattern>, i: nat)
    requires Separated(ps) && i < |ps|
    ensures
      var s := "'" + ps[i].to + ("'" + ps[i].to + "'");
      RewriteStretch(RewriteStretch(s, ps), Reversed(ps)) != s
  {
    hide Separated, Apart, RewriteStretch, Split;
    var name := ps[i].to;
    var s := "'" + name + ("'" + name + "'");
    NamesAreGood(ps, i, i);
    SplitQuotedTwice(name);
    var parts := Split(s).parts;
    assert name[..|name|] == name;
    assert TokenAt(parts, 0, ps[i].to);
    StretchReversal(s, ps);
  }
}
