/** What the models share about strings: whitespace, prefixes, and splitting at a character. */
module Strings {
  import opened Wrappers

  predicate IsBlank(c: char) {
    c == ' ' || c == '\t'
  }

  /** The characters a line of text can break at. */
  predicate IsTerminator(c: char) {
    c == '\n' || c == '\r' || c == '\U{2028}' || c == '\U{2029}'
  }

  /** Whitespace, as `\s` and `trim` know it. */
  predicate IsSpace(c: char) {
    || IsBlank(c) || IsTerminator(c) || c == '\U{000B}' || c == '\U{000C}' || c == '\U{00A0}' || c == '\U{1680}'
    || '\U{2000}' <= c <= '\U{200A}' || c == '\U{202F}' || c == '\U{205F}' || c == '\U{3000}' || c == '\U{FEFF}'
  }

  predicate StartsAt(s: string, i: nat, word: string) {
    i + |word| <= |s| && s[i..i + |word|] == word
  }

  lemma SliceOfSlice<T>(s: seq<T>, from: nat, to: nat, i: nat, j: nat)
    requires from <= to <= |s| && i <= j <= to - from
    ensures s[from..to][i..j] == s[from + i..from + j]
  {
    var a, b := s[from..to][i..j], s[from + i..from + j];
    assert |a| == |b| && forall k | 0 <= k < |a| :: a[k] == s[from..to][i + k] == s[from + i + k] == b[k];
  }

  /** The first occurrence from index i on. */
  function IndexFrom(text: string, i: nat, form: string): (found: Option<nat>)
    requires i <= |text|
    ensures found.Some? ==> i <= found.value && StartsAt(text, found.value, form)
    ensures found.Some? ==> forall j | i <= j < found.value :: !StartsAt(text, j, form)
    ensures found.None? ==> forall j | i <= j <= |text| :: !StartsAt(text, j, form)
    decreases |text| - i
  {
    if StartsAt(text, i, form) then Some(i) else if i == |text| then None else IndexFrom(text, i + 1, form)
  }

  /** The pieces of s from index i on, cut at each separator, behind what is already read of the first piece. */
  function SplitFrom(s: string, i: nat, piece: string, separator: char): (pieces: seq<string>)
    requires i <= |s|
    ensures pieces != []
    decreases |s| - i
  {
    if i == |s| then [piece]
    else if s[i] == separator then [piece] + SplitFrom(s, i + 1, "", separator)
    else SplitFrom(s, i + 1, piece + [s[i]], separator)
  }

  function SplitAt(s: string, separator: char): (pieces: seq<string>)
    ensures pieces != []
  {
    SplitFrom(s, 0, "", separator)
  }

  function JoinWith(pieces: seq<string>, separator: string): string
    decreases pieces
  {
    if pieces == [] then ""
    else if |pieces| == 1 then pieces[0]
    else pieces[0] + separator + JoinWith(pieces[1..], separator)
  }

  lemma JoinWithCons(first: string, rest: seq<string>, separator: string)
    requires rest != []
    ensures JoinWith([first] + rest, separator) == first + separator + JoinWith(rest, separator)
  {
    assert ([first] + rest)[1..] == rest;
  }

  lemma SplitStep(s: string, i: nat, piece: string, separator: char)
    requires i <= |s|
    ensures SplitFrom(s, i, piece, separator) ==
            if i == |s| then [piece]
            else if s[i] == separator then [piece] + SplitFrom(s, i + 1, "", separator)
            else SplitFrom(s, i + 1, piece + [s[i]], separator)
  {}

  lemma Regrouped(a: string, b: string, c: string)
    ensures a + b + c == a + (b + c) && "" + c == c && a + "" == a
  {}

  lemma {:induction false} JoinOfSplitFrom(s: string, i: nat, piece: string, separator: char)
    requires i <= |s|
    ensures JoinWith(SplitFrom(s, i, piece, separator), [separator]) == piece + s[i..]
    decreases |s| - i
  {
    SplitStep(s, i, piece, separator);
    if i == |s| {
      Regrouped(piece, "", "");
    } else {
      hide SplitFrom, JoinWith;
      assert s[i..] == [s[i]] + s[i + 1..];
      Regrouped(piece, [s[i]], s[i + 1..]);
      if s[i] == separator {
        JoinOfSplitFrom(s, i + 1, "", separator);
        JoinWithCons(piece, SplitFrom(s, i + 1, "", separator), [separator]);
      } else {
        JoinOfSplitFrom(s, i + 1, piece + [s[i]], separator);
      }
    }
  }

  /** Joining what was split gives the string back. */
  lemma JoinOfSplitAt(s: string, separator: char)
    ensures JoinWith(SplitAt(s, separator), [separator]) == s
  {
    JoinOfSplitFrom(s, 0, "", separator);
    assert "" + s[0..] == s;
  }

  ghost predicate Without(s: string, c: char) {
    forall i | 0 <= i < |s| :: s[i] != c
  }

  lemma {:induction false} SplitPastPiece(s: string, i: nat, j: nat, piece: string, separator: char)
    requires i <= j <= |s| && Without(s[i..j], separator)
    ensures SplitFrom(s, i, piece, separator) == SplitFrom(s, j, piece + s[i..j], separator)
    decreases j - i
  {
    if i < j {
      assert s[i..j][0] == s[i] && s[i + 1..j] == s[i..j][1..];
      SplitPastPiece(s, i + 1, j, piece + [s[i]], separator);
      assert piece + [s[i]] + s[i + 1..j] == piece + s[i..j];
    } else {
      assert piece + s[i..j] == piece;
    }
  }

  lemma {:induction false} SplitOfJoinFrom(s: string, i: nat, pieces: seq<string>, separator: char)
    requires i <= |s| && pieces != [] && s[i..] == JoinWith(pieces, [separator])
    requires forall k | 0 <= k < |pieces| :: Without(pieces[k], separator)
    ensures SplitFrom(s, i, "", separator) == pieces
    decreases pieces
  {
    var j := i + |pieces[0]|;
    if |pieces| == 1 {
      assert s[i..j] == pieces[0] && j == |s|;
      SplitPastPiece(s, i, j, "", separator);
      assert "" + pieces[0] == pieces[0] && [pieces[0]] == pieces;
    } else {
      var rest := JoinWith(pieces[1..], [separator]);
      assert s[i..] == pieces[0] + [separator] + rest;
      assert s[i..j] == s[i..][..|pieces[0]|] == pieces[0];
      assert s[j] == s[i..][|pieces[0]|] == separator;
      assert s[j + 1..] == s[i..][|pieces[0]| + 1..] == rest;
      SplitPastPiece(s, i, j, "", separator);
      SplitOfJoinFrom(s, j + 1, pieces[1..], separator);
      assert "" + pieces[0] == pieces[0] && [pieces[0]] + pieces[1..] == pieces;
    }
  }

  /** Splitting what was joined gives the pieces back when none of them holds the separator. */
  lemma SplitOfJoinWith(pieces: seq<string>, separator: char)
    requires pieces != [] && forall k | 0 <= k < |pieces| :: Without(pieces[k], separator)
    ensures SplitAt(JoinWith(pieces, [separator]), separator) == pieces
  {
    var s := JoinWith(pieces, [separator]);
    assert s[0..] == s;
    SplitOfJoinFrom(s, 0, pieces, separator);
  }
}
