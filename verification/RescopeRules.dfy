/**
 The rules of the generic pass in plain terms: which lines of a file it may touch, which stretches of them are package
 name tokens or YAML scalars, and which names the table gives them.
 */
module RescopeRules {
  import opened Strings
  import opened Wrappers
  import opened Rescope
  import opened RescopePieces
  import opened RescopeTokens
  import opened RescopeYaml
  import opened RescopeLaws
  import opened RescopeText

  // ---- Lines -------------------------------------------------------------------------------------------------------

  ghost predicate Spaces(s: string, from: nat, to: nat)
    requires to <= |s|
  {
    forall k | from <= k < to :: IsSpace(s[k])
  }

  /** Behind whitespace, over the stretches of the line, three backquotes. */
  ghost predicate OpensFence(line: TextLine, j: nat, i: nat) {
    && j < |line| && i + 3 <= |line[j]| && line[j][i] == line[j][i + 1] == line[j][i + 2] == '`'
    && Spaces(line[j], 0, i) && forall h | 0 <= h < j :: Spaces(line[h], 0, |line[h]|)
  }

  lemma {:induction false} FenceExactly(line: TextLine)
    ensures IsFence(line) <==> exists j: nat, i: nat :: OpensFence(line, j, i)
    decreases line
  {
    hide IsSpace;
    if line != [] {
      var s, rest := line[0], line[1..];
      var n := SkipSpaces(s, 0);
      FenceExactly(rest);
      ThreeTicks(s, n);
      if n == |s| {
        forall j: nat, i: nat ensures OpensFence(line, j + 1, i) <==> OpensFence(rest, j, i) {
          assert j < |rest| ==> forall h | 0 <= h < j :: rest[h] == line[h + 1];
        }
        forall i: nat ensures !OpensFence(line, 0, i) {
          if i < |s| && s[i] == '`' {
            TickIsNoSpace();
          }
        }
        if j: nat, i: nat :| OpensFence(line, j, i) {
          assert OpensFence(rest, j - 1, i);
        }
        if j: nat, i: nat :| OpensFence(rest, j, i) {
          assert OpensFence(line, j + 1, i);
        }
      } else {
        forall j: nat, i: nat | OpensFence(line, j, i) ensures j == 0 && i == n {
          TickIsNoSpace();
        }
        assert IsFence(line) ==> OpensFence(line, 0, n);
      }
    }
  }

  lemma TickIsNoSpace()
    ensures !IsSpace('`')
  {}

  lemma ThreeTicks(s: string, i: nat)
    ensures StartsAt(s, i, FENCE) <==> i + 3 <= |s| && s[i] == s[i + 1] == s[i + 2] == '`'
  {
    if i + 3 <= |s| {
      var t := s[i..i + 3];
      assert t[0] == s[i] && t[1] == s[i + 1] && t[2] == s[i + 2];
    }
  }

  /** The fence lines before line k. */
  ghost function FencesBefore(text: seq<TextLine>, k: nat): set<nat>
    requires k <= |text|
  {
    set j: nat | j < k && IsFence(text[j])
  }

  lemma {:induction false} InsideIsOdd(text: seq<TextLine>, k: nat)
    requires k <= |text|
    ensures InsideAt(text, k) <==> |FencesBefore(text, k)| % 2 == 1
    decreases k
  {
    hide IsFence;
    if k > 0 {
      InsideIsOdd(text, k - 1);
      FencesNext(text, k - 1);
      hide FencesBefore;
    }
  }

  lemma FencesNext(text: seq<TextLine>, k: nat)
    requires k < |text|
    ensures |FencesBefore(text, k + 1)| == |FencesBefore(text, k)| + if IsFence(text[k]) then 1 else 0
  {
    hide IsFence;
    var before := FencesBefore(text, k);
    if IsFence(text[k]) {
      assert FencesBefore(text, k + 1) == before + {k};
    } else {
      assert FencesBefore(text, k + 1) == before;
    }
  }

  lemma {:induction false} StretchByStretch(line: TextLine, ps: seq<Pattern>, i: nat)
    requires i < |line|
    ensures |RewriteLine(line, ps)| == |line| && RewriteLine(line, ps)[i] == RewriteStretch(line[i], ps)
    decreases line
  {
    hide RewriteStretch;
    if |line| > 1 {
      StretchByStretch(line[1..], ps, if i > 0 then i - 1 else 0);
    }
    assert |line| == 1 ==> RewriteLine(line[1..], ps) == [];
  }

  /** Every stretch of the line is rewritten. */
  ghost predicate Rewritten(line: TextLine, after: TextLine, ps: seq<Pattern>) {
    |after| == |line| && forall i | 0 <= i < |line| :: after[i] == RewriteStretch(line[i], ps)
  }

  lemma RewrittenIs(line: TextLine, ps: seq<Pattern>)
    ensures Rewritten(line, RewriteLine(line, ps), ps)
  {
    hide RewriteStretch, RewriteLine;
    forall i | 0 <= i < |line|
      ensures |RewriteLine(line, ps)| == |line| && RewriteLine(line, ps)[i] == RewriteStretch(line[i], ps)
    {
      StretchByStretch(line, ps, i);
    }
    if line == [] {
      NothingToRewrite(ps);
    } else {
      StretchByStretch(line, ps, 0);
    }
  }

  lemma NothingToRewrite(ps: seq<Pattern>)
    ensures RewriteLine([], ps) == []
  {}

  /**
   Which lines change. Outside Markdown every line is rewritten. The fence lines of Markdown stay as they are; under
   docs every other line is rewritten, and elsewhere those with an odd number of fence lines before them, the others
   staying as they are.
   */
  lemma LinesRewritten(kind: Kind, text: seq<TextLine>, ps: seq<Pattern>, k: nat)
    requires k < |text|
    ensures
      var out := RewriteText(kind, text, ps);
      && |out| == |text|
      && match kind
         case OtherFile => Rewritten(text[k], out[k], ps)
         case DocsMarkdown => if IsFence(text[k]) then out[k] == text[k] else Rewritten(text[k], out[k], ps)
         case OtherMarkdown =>
           if IsFence(text[k]) || |FencesBefore(text, k)| % 2 == 0 then out[k] == text[k]
           else Rewritten(text[k], out[k], ps)
  {
    hide IsFence, InsideAt, RewriteLine, Rewritten, FencesBefore;
    InsideIsOdd(text, k);
    RewrittenIs(text[k], ps);
  }

  /** One row is applied after another, each first to the tokens and then to the YAML scalar of what it finds. */
  lemma {:induction false} RowsInOrder(s: string, ps: seq<Pattern>, p: Pattern, qs: seq<Pattern>)
    ensures
      var before := RewriteStretch(s, ps);
      RewriteStretch(s, ps + [p] + qs) == RewriteStretch(ReplaceYamlName(ReplaceTokens(before, 0, p), p), qs)
    decreases ps
  {
    hide ReplaceTokens, ReplaceYamlName;
    var all := ps + [p] + qs;
    if ps == [] {
      assert all == [p] + qs && all[1..] == qs;
    } else {
      assert all[0] == ps[0] && all[1..] == ps[1..] + [p] + qs;
      RowsInOrder(ReplaceYamlName(ReplaceTokens(s, 0, ps[0]), ps[0]), ps[1..], p, qs);
    }
  }

  // ---- Tokens ------------------------------------------------------------------------------------------------------

  /** Nothing, or a subpath: a slash, then neither quotes nor whitespace. */
  ghost predicate Subpath(sub: string) {
    sub == "" || (sub[0] == '/' && forall k | 0 <= k < |sub| ::
                    sub[k] != '\'' && sub[k] != '"' && sub[k] != '`' && !IsSpace(sub[k]))
  }

  /** A token: the name and perhaps a subpath, between two quotes of one kind. */
  lemma TokenExactly(s: string, i: nat, name: string, j: nat)
    requires i < |s|
    ensures TokenEnd(s, i, name) == Some(j) <==>
            && i + |name| < j < |s| && s[j] == s[i] && (s[i] == '\'' || s[i] == '"' || s[i] == '`')
            && s[i + 1..i + 1 + |name|] == name && Subpath(s[i + 1 + |name|..j])
  {
    hide IsSpace;
    var e := i + 1 + |name|;
    if e <= j < |s| && IsQuote(s[i]) && StartsAt(s, i + 1, name) {
      var sub := s[e..j];
      assert forall k | 0 <= k < |sub| :: sub[k] == s[e + k];
      assert forall k | e <= k < j :: s[k] == sub[k - e];
      SlashIsPlain();
      if Subpath(sub) && s[j] == s[i] && j > e {
        assert sub[0] == s[e];
        assert forall k | e <= k < j :: !IsQuote(s[k]) && !IsSpace(s[k]);
        RunEndIs(s, e + 1, j);
      }
    }
  }

  lemma SlashIsPlain()
    ensures !IsSpace('/') && !IsQuote('/')
  {}

  lemma RunEndIs(s: string, i: nat, j: nat)
    requires i <= j < |s| && IsQuote(s[j]) && forall k | i <= k < j :: !IsQuote(s[k]) && !IsSpace(s[k])
    ensures RunEnd(s, i) == j
  {}

  // ---- YAML names --------------------------------------------------------------------------------------------------

  ghost predicate Blanks(s: string, from: nat, to: nat)
    requires to <= |s|
  {
    forall k | from <= k < to :: s[k] == ' ' || s[k] == '\t'
  }

  /**
   A YAML line that names a package: whitespace up to a, perhaps a dash and more whitespace up to b, the key, at least
   one blank up to n, the name, blanks up to c, and there the end or a comment.
   */
  ghost predicate NameLine(s: string, name: string, a: nat, b: nat, n: nat, c: nat) {
    && a <= b && b + 5 < n && n + |name| <= c <= |s|
    && Spaces(s, 0, a) && (a == b || (s[a] == '-' && Spaces(s, a + 1, b)))
    && s[b..b + 5] == "name:" && Blanks(s, b + 5, n)
    && s[n..n + |name|] == name
    && Blanks(s, n + |name|, c) && (c == |s| || s[c] == '#')
  }

  lemma KeyIsFound(s: string, a: nat, b: nat)
    requires a <= b < |s| && s[b] == 'n' && Spaces(s, 0, a) && (a == b || (s[a] == '-' && Spaces(s, a + 1, b)))
    ensures KeyStart(s) == b
  {
    assert !IsSpace('n') && !IsSpace('-');
    SkipSpacesIs(s, 0, a);
    if a < b {
      SkipSpacesIs(s, a + 1, b);
    }
  }

  /** The scalar of exactly these lines is renamed, and nothing else of them. */
  lemma YamlNameExactly(s: string, p: Pattern)
    requires GoodName(p.from)
    ensures forall a: nat, b: nat, n: nat, c: nat | NameLine(s, p.from, a, b, n, c) ::
              ReplaceYamlName(s, p) == s[..n] + p.to + s[n + |p.from|..]
    ensures ReplaceYamlName(s, p) == s || exists a: nat, b: nat, n: nat, c: nat :: NameLine(s, p.from, a, b, n, c)
  {
    forall a: nat, b: nat, n: nat, c: nat | NameLine(s, p.from, a, b, n, c)
      ensures NamesInYaml(s, p.from) && ScalarStart(s) == Some(n)
    {
      NameLineIsFound(s, p.from, a, b, n, c);
    }
    if NamesInYaml(s, p.from) {
      var a, b, n, c := FoundIsNameLine(s, p.from);
    }
    hide NamesInYaml, ScalarStart, NameLine;
  }

  lemma NameLineIsFound(s: string, name: string, a: nat, b: nat, n: nat, c: nat)
    requires GoodName(name) && NameLine(s, name, a, b, n, c)
    ensures NamesInYaml(s, name) && ScalarStart(s) == Some(n)
  {
    hide IsSpace, KeyStart;
    assert s[b] == s[b..b + 5][0] == 'n';
    KeyIsFound(s, a, b);
    assert s[n] == s[n..n + |name|][0] == name[0];
    BlankIsSpace(s[n]);
    SkipBlanksIs(s, b + 5, n);
    assert c < |s| ==> !IsBlank(s[c]);
    SkipBlanksIs(s, n + |name|, c);
  }

  lemma BlankIsSpace(c: char)
    ensures IsBlank(c) ==> IsSpace(c)
  {}

  lemma FoundIsNameLine(s: string, name: string) returns (a: nat, b: nat, n: nat, c: nat)
    requires NamesInYaml(s, name)
    ensures NameLine(s, name, a, b, n, c)
  {
    hide IsSpace;
    a := SkipSpaces(s, 0);
    b := KeyStart(s);
    n := ScalarStart(s).value;
    c := SkipBlanks(s, n + |name|);
  }

  // ---- The table ---------------------------------------------------------------------------------------------------

  /** The rule behind the table: plugins keep their short name behind a new prefix, other packages their whole name. */
  ghost predicate FollowsRule(p: Pattern) {
    || (exists short :: p.from == "@cordisjs/plugin-" + short && p.to == "@deepseek-ai/cordis-plugin-" + short)
    || (p.from != "" && p.from[0] != '@' && p.to == "@deepseek-ai/" + p.from)
  }

  lemma PluginFollowsRule(p: Pattern, short: string)
    requires p.from == "@cordisjs/plugin-" + short && p.to == "@deepseek-ai/cordis-plugin-" + short
    ensures FollowsRule(p)
  {}

  lemma PackageRows()
    ensures FollowsRule(RENAMES[0]) && FollowsRule(RENAMES[1]) && FollowsRule(RENAMES[2])
  {
    hide FollowsRule;
    PackageFollowsRule(RENAMES[0], "cordis");
    PackageFollowsRule(RENAMES[1], "cosmokit");
    PackageFollowsRule(RENAMES[2], "schemastery");
  }

  lemma FirstPluginRows()
    ensures FollowsRule(RENAMES[3]) && FollowsRule(RENAMES[4])
  {
    hide FollowsRule;
    PluginFollowsRule(RENAMES[3], "loader");
    PluginFollowsRule(RENAMES[4], "include");
  }

  lemma MiddlePluginRows()
    ensures FollowsRule(RENAMES[5]) && FollowsRule(RENAMES[6])
  {
    hide FollowsRule;
    PluginFollowsRule(RENAMES[5], "group");
    PluginFollowsRule(RENAMES[6], "timer");
  }

  lemma LastPluginRows()
    ensures FollowsRule(RENAMES[7]) && FollowsRule(RENAMES[8])
  {
    hide FollowsRule;
    PluginFollowsRule(RENAMES[7], "hmr");
    PluginFollowsRule(RENAMES[8], "logger-console");
  }

  lemma TableFollowsRule()
    ensures |RENAMES| == 9 && forall i | 0 <= i < |RENAMES| :: FollowsRule(RENAMES[i])
  {
    hide FollowsRule;
    PackageRows();
    FirstPluginRows();
    MiddlePluginRows();
    LastPluginRows();
  }

  lemma PackageFollowsRule(p: Pattern, name: string)
    requires p.from == name && p.to == "@deepseek-ai/" + name && name != "" && name[0] != '@'
    ensures FollowsRule(p)
  {}
}
