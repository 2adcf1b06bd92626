/**
 The generic rescope pass: every delimited, complete package-name token of a line is renamed, and the scalar of a YAML
 `name:` line. The regular expressions of the program are written out as scans over the line.
 */
module Rescope {
  import opened Strings
  import opened Wrappers

  /** One direction of one row of the rename table. */
  datatype Pattern = Pattern(from: string, to: string)

  predicate IsQuote(c: char) {
    c == '\'' || c == '"' || c == '`'
  }

  // ---- The token rule ----------------------------------------------------------------------------------------------

  /** Behind the longest run of characters that are neither quotes nor whitespace. */
  function RunEnd(s: string, i: nat): (j: nat)
    requires i <= |s|
    ensures i <= j <= |s|
    ensures forall k | i <= k < j :: !IsQuote(s[k]) && !IsSpace(s[k])
    ensures j < |s| ==> IsQuote(s[j]) || IsSpace(s[j])
    decreases |s| - i
  {
    if i == |s| || IsQuote(s[i]) || IsSpace(s[i]) then i else RunEnd(s, i + 1)
  }

  function SubpathEnd(s: string, i: nat): (j: nat)
    requires i <= |s|
    ensures i <= j <= |s|
  {
    if i < |s| && s[i] == '/' then RunEnd(s, i + 1) else i
  }

  /** Where the token that starts at i ends: at its closing quote. */
  function TokenEnd(s: string, i: nat, name: string): (end: Option<nat>)
    requires i < |s|
    ensures end.Some? ==> i + |name| < end.value < |s|
  {
    if IsQuote(s[i]) && StartsAt(s, i + 1, name) then
      var j := SubpathEnd(s, i + 1 + |name|);
      if j < |s| && s[j] == s[i] then Some(j) else None
    else None
  }

  /** Replaces the tokens of s from index i on; the search goes on behind the closing quote of a replaced token. */
  function ReplaceTokens(s: string, i: nat, p: Pattern): string
    requires i <= |s|
    decreases |s| - i
  {
    if i == |s| then ""
    else
      match TokenEnd(s, i, p.from)
      case Some(j) => [s[i]] + p.to + s[i + 1 + |p.from|..j + 1] + ReplaceTokens(s, j + 1, p)
      case None => [s[i]] + ReplaceTokens(s, i + 1, p)
  }

  // ---- The YAML rule -----------------------------------------------------------------------------------------------

  function SkipSpaces(s: string, i: nat): (j: nat)
    requires i <= |s|
    ensures i <= j <= |s| && forall k | i <= k < j :: IsSpace(s[k])
    ensures j < |s| ==> !IsSpace(s[j])
    decreases |s| - i
  {
    if i == |s| || !IsSpace(s[i]) then i else SkipSpaces(s, i + 1)
  }

  function SkipBlanks(s: string, i: nat): (j: nat)
    requires i <= |s|
    ensures i <= j <= |s| && forall k | i <= k < j :: IsBlank(s[k])
    ensures j < |s| ==> !IsBlank(s[j])
    decreases |s| - i
  {
    if i == |s| || !IsBlank(s[i]) then i else SkipBlanks(s, i + 1)
  }

  const NAME_KEY := "name:"

  /** Where the `name:` key starts, behind indentation and an optional list dash. */
  function KeyStart(s: string): (j: nat)
    ensures j <= |s|
  {
    var i := SkipSpaces(s, 0);
    if i < |s| && s[i] == '-' then SkipSpaces(s, i + 1) else i
  }

  /** Where the scalar of a YAML `name:` line starts. */
  function ScalarStart(s: string): (n: Option<nat>)
    ensures n.Some? ==> n.value <= |s|
  {
    var j := KeyStart(s);
    if StartsAt(s, j, NAME_KEY) then
      var n := SkipBlanks(s, j + |NAME_KEY|);
      if n > j + |NAME_KEY| then Some(n) else None
    else None
  }

  /** Only blanks, or blanks and a comment, from index i on. */
  predicate OnlyComment(s: string, i: nat)
    requires i <= |s|
  {
    var j := SkipBlanks(s, i);
    j == |s| || s[j] == '#'
  }

  predicate NamesInYaml(s: string, name: string) {
    var n := ScalarStart(s);
    n.Some? && StartsAt(s, n.value, name) && OnlyComment(s, n.value + |name|)
  }

  function ReplaceYamlName(s: string, p: Pattern): string {
    if NamesInYaml(s, p.from) then
      var n := ScalarStart(s).value;
      s[..n] + p.to + s[n + |p.from|..]
    else s
  }

  // ---- Lines and texts ---------------------------------------------------------------------------------------------

  /** All patterns, one after another, over a stretch of text that holds no line terminator. */
  function RewriteStretch(s: string, patterns: seq<Pattern>): string
    decreases patterns
  {
    if patterns == [] then s
    else RewriteStretch(ReplaceYamlName(ReplaceTokens(s, 0, patterns[0]), patterns[0]), patterns[1..])
  }
}
