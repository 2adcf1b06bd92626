/**
 Exact edits: every occurrence of a source form is replaced by a target form, and an edit is judged pending, applied or
 invalid by counting both forms.
 */
module ExactEdits {
  import opened Strings
  import opened Wrappers

  // ---- Splitting and joining ---------------------------------------------------------------------------------------

  predicate Includes(text: string, form: string) {
    IndexFrom(text, 0, form).Some?
  }

  /** The text between the occurrences of a form, found left to right without overlap. */
  function PiecesBetween(text: string, form: string): (pieces: seq<string>)
    requires form != ""
    ensures pieces != []
    decreases |text|
  {
    match IndexFrom(text, 0, form)
    case None => [text]
    case Some(i) => [text[..i]] + PiecesBetween(text[i + |form|..], form)
  }

  /** `split`; the empty form splits a text into its characters. */
  function Split(text: string, form: string): seq<string> {
    if form == "" then seq(|text|, i requires 0 <= i < |text| => [text[i]]) else PiecesBetween(text, form)
  }

  function Hits(text: string, form: string): int {
    |Split(text, form)| - 1
  }

  /** `split(find).join(replace)` */
  function Applying(text: string, find: string, replace: string): string {
    JoinWith(Split(text, find), replace)
  }

  // ---- Classification ----------------------------------------------------------------------------------------------

  datatype EditState = Pending | Applied | Invalid

  function ExactEditState(text: string, find: string, replace: string, count: int): EditState {
    var hits, landed := Hits(text, find), Hits(text, replace);
    if Includes(replace, find) then
      if landed == count then Applied
      else if landed == 0 && hits == count then Pending else Invalid
    else if Includes(find, replace) then
      if hits == 0 then (if landed == count then Applied else Invalid)
      else if hits == count then Pending else Invalid
    else if hits == 0 && landed == count then Applied
    else if hits == count && landed == 0 then Pending else Invalid
  }

  function Opposite(s: EditState): EditState {
    match s
    case Pending => Applied
    case Applied => Pending
    case Invalid => Invalid
  }

  lemma IncludesIsShorter(text: string, form: string)
    requires Includes(text, form)
    ensures |form| <= |text|
    ensures |form| == |text| ==> form == text
  {
    var i := IndexFrom(text, 0, form).value;
    if |form| == |text| {
      assert text[i..i + |form|] == text;
    }
  }

  /**
   The states by the counts of both forms. The surviving form decides an insertion or a deletion; any other edit must
   have lost the form it comes from.
   */
  lemma StatesByCounts(text: string, find: string, replace: string, count: int)
    requires find != replace && count >= 1
    ensures
      var hits, landed := |Split(text, find)| - 1, |Split(text, replace)| - 1;
      && (ExactEditState(text, find, replace, count) == Applied
          <==> landed == count && (hits == 0 || Includes(replace, find)))
      && (ExactEditState(text, find, replace, count) == Pending
          <==> hits == count && (landed == 0 || Includes(find, replace)))
  {
    hide Split, Includes;
    if Includes(replace, find) && Includes(find, replace) {
      IncludesIsShorter(replace, find);
      IncludesIsShorter(find, replace);
    }
  }

  /** In one direction an edit is applied exactly when in the other it is pending, on every text. */
  lemma DirectionsAreOpposite(text: string, find: string, replace: string, count: int)
    requires find != replace && count >= 1
    ensures ExactEditState(text, replace, find, count) == Opposite(ExactEditState(text, find, replace, count))
  {
    hide Hits, Includes;
    if Includes(replace, find) && Includes(find, replace) {
      IncludesIsShorter(replace, find);
      IncludesIsShorter(find, replace);
    }
  }

  // ---- Undoing an edit ---------------------------------------------------------------------------------------------

  /** In the joined text the form occurs nowhere from within a piece, overlapping occurrences included. */
  ghost predicate Clear(pieces: seq<string>, form: string)
    requires pieces != []
    decreases pieces
  {
    if |pieces| == 1 then !Includes(pieces[0], form)
    else
      && (forall j | 0 <= j < |pieces[0]| :: !StartsAt(JoinWith(pieces, form), j, form))
      && Clear(pieces[1..], form)
  }

  lemma {:induction false} JoinOfPieces(text: string, form: string)
    requires form != ""
    ensures JoinWith(PiecesBetween(text, form), form) == text
    decreases |text|
  {
    var found := IndexFrom(text, 0, form);
    if found.Some? {
      var i := found.value;
      var rest := PiecesBetween(text[i + |form|..], form);
      JoinOfPieces(text[i + |form|..], form);
      assert PiecesBetween(text, form)[1..] == rest;
      assert text == text[..i] + text[i..i + |form|] + text[i + |form|..];
    }
  }

  lemma IndexIs(text: string, form: string, i: nat)
    requires StartsAt(text, i, form) && forall j | 0 <= j < i :: !StartsAt(text, j, form)
    ensures IndexFrom(text, 0, form) == Some(i)
  {}

  /** Joining puts the form behind the first piece. */
  lemma JoinedAt(pieces: seq<string>, form: string)
    requires |pieces| > 1
    ensures
      var text, n := JoinWith(pieces, form), |pieces[0]|;
      && StartsAt(text, n, form) && text[..n] == pieces[0]
      && n + |form| <= |text| && text[n + |form|..] == JoinWith(pieces[1..], form)
  {
    var text, n := JoinWith(pieces, form), |pieces[0]|;
    assert text == pieces[0] + form + JoinWith(pieces[1..], form);
  }

  lemma PiecesStep(text: string, form: string)
    requires form != ""
    ensures IndexFrom(text, 0, form).None? ==> PiecesBetween(text, form) == [text]
    ensures IndexFrom(text, 0, form).Some? ==>
      var i := IndexFrom(text, 0, form).value;
      i + |form| <= |text|
      && PiecesBetween(text, form) == [text[..i]] + PiecesBetween(text[i + |form|..], form)
  {}

  /** Splitting the joined text gives the pieces back exactly when they are clear of the form. */
  lemma {:induction false} PiecesOfJoin(pieces: seq<string>, form: string)
    requires pieces != [] && form != ""
    ensures PiecesBetween(JoinWith(pieces, form), form) == pieces <==> Clear(pieces, form)
    decreases pieces
  {
    hide PiecesBetween, StartsAt;
    var text := JoinWith(pieces, form);
    PiecesStep(text, form);
    if |pieces| == 1 {
      assert [pieces[0]] == pieces;
    } else {
      hide IndexFrom, JoinWith;
      var n := |pieces[0]|;
      JoinedAt(pieces, form);
      PiecesOfJoin(pieces[1..], form);
      var i := IndexFrom(text, 0, form).value;
      FirstAndRest(text[..i], PiecesBetween(text[i + |form|..], form), pieces);
      assert i == n <==> forall j | 0 <= j < n :: !StartsAt(text, j, form);
      assert text[..i] == pieces[0] ==> i == n;
    }
  }

  lemma FirstAndRest(a: string, s: seq<string>, pieces: seq<string>)
    requires pieces != []
    ensures [a] + s == pieces <==> a == pieces[0] && s == pieces[1..]
  {
    assert pieces == [pieces[0]] + pieces[1..];
    if [a] + s == pieces {
      assert ([a] + s)[0] == pieces[0] && ([a] + s)[1..] == pieces[1..];
    }
  }

  /** Two cuttings of the same two texts, each the cutting at one of the forms, are one. */
  lemma {:induction false} OneCutting(p: seq<string>, q: seq<string>, find: string, replace: string)
    requires p != [] && q != [] && find != "" && replace != ""
    requires PiecesBetween(JoinWith(p, replace), replace) == q && PiecesBetween(JoinWith(q, find), find) == p
    requires JoinWith(q, replace) == JoinWith(p, replace) && JoinWith(q, find) == JoinWith(p, find)
    ensures p == q
    decreases p
  {
    if |p| > 1 && |q| > 1 {
      hide JoinWith;
      JoinedAt(p, replace);
      JoinedAt(q, replace);
      JoinedAt(p, find);
      JoinedAt(q, find);
      FirstPieceIsShortest(JoinWith(p, replace), replace, |p[0]|);
      FirstPieceIsShortest(JoinWith(q, find), find, |q[0]|);
      assert |p[0]| == |q[0]|;
      assert p[0] == q[0];
      PiecesTail(JoinWith(p, replace), replace);
      PiecesTail(JoinWith(q, find), find);
      OneCutting(p[1..], q[1..], find, replace);
      assert p == [p[0]] + p[1..] && q == [q[0]] + q[1..];
    } else if |p| > 1 {
      JoinedAt(p, replace);
      FirstPieceIsShortest(JoinWith(p, replace), replace, |p[0]|);
    } else if |q| > 1 {
      JoinedAt(q, find);
      FirstPieceIsShortest(JoinWith(q, find), find, |q[0]|);
    } else {
      assert p == [p[0]] && q == [q[0]];
    }
  }

  lemma FirstPieceIsShortest(text: string, form: string, i: nat)
    requires form != "" && StartsAt(text, i, form)
    ensures |PiecesBetween(text, form)| > 1 && |PiecesBetween(text, form)[0]| <= i
  {
    var found := IndexFrom(text, 0, form);
    assert found.Some? && found.value <= i;
  }

  lemma PiecesTail(text: string, form: string)
    requires form != "" && |PiecesBetween(text, form)| > 1
    ensures
      var pieces := PiecesBetween(text, form);
      var n := |pieces[0]|;
      n + |form| <= |text| && pieces[1..] == PiecesBetween(text[n + |form|..], form)
  {
    hide IndexFrom;
    var i := IndexFrom(text, 0, form).value;
    var a, rest := text[..i], PiecesBetween(text[i + |form|..], form);
    assert PiecesBetween(text, form) == [a] + rest;
    assert ([a] + rest)[1..] == rest && |a| == i;
  }

  /**
   The reverse of an edit restores the text exactly when the edited text holds the target form nowhere from within the
   kept pieces.
   */
  lemma UndoingRestoresExactlyWhenClear(text: string, find: string, replace: string)
    requires find != "" && replace != ""
    ensures Applying(Applying(text, find, replace), replace, find) == text <==> Clear(Split(text, find), replace)
  {
    hide PiecesBetween, JoinWith, Clear;
    var p := Split(text, find);
    var after := JoinWith(p, replace);
    var q := Split(after, replace);
    JoinOfPieces(text, find);
    JoinOfPieces(after, replace);
    PiecesOfJoin(p, replace);
    if JoinWith(q, find) == text {
      OneCutting(p, q, find, replace);
    }
  }

  lemma NoHitsMeansAbsent(text: string, form: string)
    requires form != ""
    ensures Hits(text, form) == 0 <==> !Includes(text, form)
  {}

  /**
   A pending edit, applied, is judged applied and undone by its reverse exactly when the result holds the target form
   only where it was put in, and the source form nowhere but, for an insertion, inside what was put in.
   */
  lemma PendingEditsAreReversible(text: string, find: string, replace: string, count: int)
    requires find != "" && replace != "" && find != replace && count >= 1
    requires ExactEditState(text, find, replace, count) == Pending
    ensures
      var after := Applying(text, find, replace);
      (ExactEditState(after, find, replace, count) == Applied && Applying(after, replace, find) == text)
      <==> Clear(Split(text, find), replace) && (Includes(replace, find) || !Includes(after, find))
  {
    hide PiecesBetween, JoinWith, Clear, Includes;
    var p := Split(text, find);
    var after := JoinWith(p, replace);
    UndoingRestoresExactlyWhenClear(text, find, replace);
    PiecesOfJoin(p, replace);
    NoHitsMeansAbsent(after, find);
  }

  /**
   The classification alone does not see a shifted site: turning "b" into "aa" in "ab" is judged applied, and undoing
   it gives "ba".
   */
  lemma ShiftedSiteIsNotRestored()
    ensures ExactEditState("ab", "b", "aa", 1) == Pending
    ensures ExactEditState(Applying("ab", "b", "aa"), "b", "aa", 1) == Applied
    ensures Applying(Applying("ab", "b", "aa"), "aa", "b") == "ba"
  {
    hide PiecesBetween, IndexFrom;
    OnePiece("", "b");
    assert "ab"[0..2][1] == 'b';
    OnePiece("ab", "aa");
    assert ("a" + "b" + "")[0..1][0] == 'a';
    TwoPieces("a", "", "b");
    assert "ab" == "a" + "b" + "";
    assert JoinWith(["a", ""], "aa") == "aaa" by {
      assert ["a", ""][1..] == [""];
    }
    OnePiece("aaa", "b");
    OnePiece("a", "aa");
    assert "aaa" == "" + "aa" + "a";
    TwoPieces("", "a", "aa");
    assert JoinWith(["", "a"], "b") == "ba" by {
      assert ["", "a"][1..] == ["a"];
    }
    OnePiece("aa", "b");
    OnePiece("b", "aa");
  }

  lemma OnePiece(text: string, form: string)
    requires form != "" && forall j | 0 <= j <= |text| :: !StartsAt(text, j, form)
    ensures PiecesBetween(text, form) == [text] && !Includes(text, form)
  {}

  lemma TwoPieces(a: string, b: string, form: string)
    requires form != "" && PiecesBetween(b, form) == [b]
    requires forall j | 0 <= j < |a| :: !StartsAt(a + form + b, j, form)
    ensures PiecesBetween(a + form + b, form) == [a, b]
  {
    var text := a + form + b;
    assert text[|a|..|a| + |form|] == form;
    IndexIs(text, form, |a|);
    assert text[..|a|] == a && text[|a| + |form|..] == b;
  }
}
