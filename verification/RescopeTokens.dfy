/**
 What rename passes do to the bodies of a line: one pass renames every other token of a run of tokens that share
 quotes, and passes for names that are apart do not see each other.
 */
module RescopeTokens {
  import opened Rescope
  import opened RescopePieces

  /** The second name is the first or lies below it. */
  predicate Under(a: string, b: string) {
    |a| <= |b| && b[..|a|] == a && (|a| == |b| || b[|a|] == '/')
  }

  ghost predicate Apart(a: string, b: string) {
    !Under(a, b) && !Under(b, a)
  }

  /** What the rename table has to be for the laws below: proper names, of which none is another or lies below it. */
  ghost predicate Separated(ps: seq<Pattern>) {
    && (forall i | 0 <= i < |ps| :: GoodName(ps[i].from) && GoodName(ps[i].to))
    && (forall i, j | 0 <= i < |ps| && 0 <= j < |ps| :: Apart(ps[i].from, ps[j].to))
    && (forall i, j | 0 <= i < j < |ps| :: Apart(ps[i].from, ps[j].from) && Apart(ps[i].to, ps[j].to))
  }

  /** Two names of one token body lie one below the other. */
  lemma CommonBody(a: string, b: string, body: string)
    requires IsTokenBody(body, a) && IsTokenBody(body, b) && |a| <= |b|
    ensures Under(a, b)
  {
    assert b[..|a|] == body[..|b|][..|a|] == body[..|a|] == a;
    assert |a| < |b| ==> b[|a|] == body[..|b|][|a|];
  }

  lemma ApartTokens(a: string, b: string, body: string)
    requires Apart(a, b)
    ensures !(IsTokenBody(body, a) && IsTokenBody(body, b))
  {
    hide IsTokenBody, Under;
    if IsTokenBody(body, a) && IsTokenBody(body, b) {
      if |a| <= |b| {
        CommonBody(a, b, body);
      } else {
        CommonBody(b, a, body);
      }
    }
  }

  lemma RenamedIsToken(body: string, p: Pattern)
    requires IsTokenBody(body, p.from)
    ensures IsTokenBody(Renamed(body, p), p.to)
    ensures Renamed(Renamed(body, p), Pattern(p.to, p.from)) == body
  {
    var sub := body[|p.from|..];
    var r := Renamed(body, p);
    assert r[..|p.to|] == p.to && r[|p.to|..] == sub;
    assert body == p.from + sub;
  }

  // ---- One pass ----------------------------------------------------------------------------------------------------

  /** Body k is renamed: it is a token, and its opening quote does not close a renamed one. */
  predicate Hit(parts: seq<Part>, k: nat, name: string, taken: bool)
    decreases k
  {
    TokenAt(parts, k, name) && if k == 0 then !taken else !Hit(parts, k - 1, name, taken)
  }

  predicate IsHit(parts: seq<Part>, k: nat, name: string) {
    Hit(parts, k, name, false)
  }

  lemma {:induction false} HitShifts(parts: seq<Part>, k: nat, name: string, taken: bool)
    requires parts != []
    ensures Hit(parts, k + 1, name, taken) == Hit(parts[1..], k, name, Hit(parts, 0, name, taken))
    decreases k
  {
    assert TokenAt(parts, k + 1, name) == TokenAt(parts[1..], k, name);
    if k > 0 {
      HitShifts(parts, k - 1, name, taken);
    }
  }

  function PartAfter(parts: seq<Part>, k: nat, p: Pattern, taken: bool): Part
    requires k < |parts|
  {
    if Hit(parts, k, p.from, taken) then Part(parts[k].quote, Renamed(parts[k].body, p)) else parts[k]
  }

  lemma {:induction false} RenamePartsAt(parts: seq<Part>, p: Pattern, taken: bool)
    ensures |RenameParts(parts, p, taken)| == |parts|
    ensures forall k | 0 <= k < |parts| :: RenameParts(parts, p, taken)[k] == PartAfter(parts, k, p, taken)
    decreases parts
  {
    if parts != [] {
      var hit := Hit(parts, 0, p.from, taken);
      var rest := RenameParts(parts[1..], p, hit);
      RenamePartsAt(parts[1..], p, hit);
      assert RenameParts(parts, p, taken) == [PartAfter(parts, 0, p, taken)] + rest;
      forall k | 0 < k < |parts| ensures RenameParts(parts, p, taken)[k] == PartAfter(parts, k, p, taken) {
        HitShifts(parts, k - 1, p.from, taken);
        assert RenameParts(parts, p, taken)[k] == rest[k - 1] == PartAfter(parts[1..], k - 1, p, hit);
      }
    }
  }

  /** After a pass: renamed tokens are tokens of the new name, all other names keep the tokens that were not renamed. */
  lemma TokenAfter(parts: seq<Part>, k: nat, p: Pattern, name: string)
    ensures
      var after := RenameParts(parts, p, false);
      && (Apart(p.to, name) ==> TokenAt(after, k, name) == (TokenAt(parts, k, name) && !IsHit(parts, k, p.from)))
      && (name == p.to ==> TokenAt(after, k, name) == (TokenAt(parts, k, name) || IsHit(parts, k, p.from)))
  {
    RenamePartsAt(parts, p, false);
    hide RenameParts, Apart, IsTokenBody, Renamed;
    if k + 1 < |parts| {
      var after := RenameParts(parts, p, false);
      assert after[k].quote == parts[k].quote && after[k + 1].quote == parts[k + 1].quote;
      if IsHit(parts, k, p.from) {
        TokenBodyIsLong(parts[k].body, p.from);
        RenamedIsToken(parts[k].body, p);
        if Apart(p.to, name) {
          ApartTokens(p.to, name, Renamed(parts[k].body, p));
        }
      }
    }
  }

  lemma TokenBodyIsLong(body: string, name: string)
    requires IsTokenBody(body, name)
    ensures |name| <= |body|
  {}

  /** Names apart from both sides of a pass are hit after it where they were hit before. */
  lemma {:induction false} HitAfterOther(parts: seq<Part>, k: nat, p: Pattern, name: string)
    requires Apart(p.from, name) && Apart(p.to, name)
    ensures IsHit(RenameParts(parts, p, false), k, name) == IsHit(parts, k, name)
    decreases k
  {
    hide RenameParts, Apart, TokenAt;
    TokenAfter(parts, k, p, name);
    ApartTokensAt(parts, k, p.from, name);
    if k > 0 {
      HitAfterOther(parts, k - 1, p, name);
    }
  }

  lemma ApartTokensAt(parts: seq<Part>, k: nat, a: string, b: string)
    requires Apart(a, b)
    ensures !(TokenAt(parts, k, a) && TokenAt(parts, k, b))
  {
    hide Apart, IsTokenBody;
    if TokenAt(parts, k, a) {
      ApartTokens(a, b, parts[k].body);
    }
  }

  // ---- All passes --------------------------------------------------------------------------------------------------

  function RenameAll(parts: seq<Part>, ps: seq<Pattern>): seq<Part>
    decreases ps
  {
    if ps == [] then parts else RenameAll(RenameParts(parts, ps[0], false), ps[1..])
  }

  /** The row that renames body k, if any. */
  ghost predicate Misses(parts: seq<Part>, k: nat, ps: seq<Pattern>) {
    forall i | 0 <= i < |ps| :: !IsHit(parts, k, ps[i].from)
  }

  lemma SeparatedRest(ps: seq<Pattern>)
    requires Separated(ps) && ps != []
    ensures Separated(ps[1..])
    ensures forall i | 0 <= i < |ps[1..]| ::
              && Apart(ps[0].from, ps[1..][i].from) && Apart(ps[0].to, ps[1..][i].from)
              && Apart(ps[0].from, ps[1..][i].to) && Apart(ps[0].to, ps[1..][i].to)
  {
    var rest := ps[1..];
    assert forall i | 0 <= i < |rest| :: rest[i] == ps[i + 1];
    forall i | 0 <= i < |rest| ensures Apart(ps[0].to, rest[i].from) {
      assert Apart(ps[i + 1].from, ps[0].to);
    }
  }

  /** All passes rename each body by the row that hits it, and leave the bodies that no row hits. */
  lemma {:induction false} RenameAllAt(parts: seq<Part>, ps: seq<Pattern>, k: nat)
    requires Separated(ps) && k < |parts|
    ensures |RenameAll(parts, ps)| == |parts| && RenameAll(parts, ps)[k].quote == parts[k].quote
    ensures Misses(parts, k, ps) ==> RenameAll(parts, ps)[k] == parts[k]
    ensures forall i | 0 <= i < |ps| && IsHit(parts, k, ps[i].from) ::
              |ps[i].from| <= |parts[k].body| && RenameAll(parts, ps)[k].body == Renamed(parts[k].body, ps[i])
    decreases ps
  {
    if ps != [] {
      hide Apart, RenameParts, Separated, Hit, Renamed, IsTokenBody;
      var p, rest := ps[0], ps[1..];
      var after := RenameParts(parts, p, false);
      SeparatedRest(ps);
      RenamePartsAt(parts, p, false);
      RenameAllAt(after, rest, k);
      forall i | 0 <= i < |rest| ensures IsHit(after, k, rest[i].from) == IsHit(parts, k, rest[i].from) {
        HitAfterOther(parts, k, p, rest[i].from);
      }
      forall i | 0 <= i < |ps| && IsHit(parts, k, ps[i].from)
        ensures |ps[i].from| <= |parts[k].body| && RenameAll(parts, ps)[k].body == Renamed(parts[k].body, ps[i])
      {
        HitIsToken(parts, k, ps[i].from);
        if i > 0 {
          assert rest[i - 1] == ps[i];
          if IsHit(parts, k, p.from) {
            HitIsToken(parts, k, p.from);
            ApartTokensAt(parts, k, p.from, ps[i].from);
          }
        } else {
          forall j | 0 <= j < |rest| ensures !IsHit(after, k, rest[j].from) {
            if IsHit(parts, k, rest[j].from) {
              HitIsToken(parts, k, rest[j].from);
              ApartTokensAt(parts, k, p.from, rest[j].from);
            }
          }
        }
      }
    }
  }

  lemma HitIsToken(parts: seq<Part>, k: nat, name: string)
    requires IsHit(parts, k, name)
    ensures TokenAt(parts, k, name) && k + 1 < |parts| && |name| <= |parts[k].body|
  {}

  /** The table may be gone through in any order. */
  lemma OrderOfRowsIsIrrelevant(parts: seq<Part>, ps: seq<Pattern>, qs: seq<Pattern>)
    requires Separated(ps) && Separated(qs) && forall p :: p in ps <==> p in qs
    ensures RenameAll(parts, ps) == RenameAll(parts, qs)
  {
    hide Apart, Separated, Hit, Renamed, RenameAll;
    RenameAllKeepsLength(parts, ps);
    RenameAllKeepsLength(parts, qs);
    forall k | 0 <= k < |parts| ensures RenameAll(parts, ps)[k] == RenameAll(parts, qs)[k] {
      RenameAllAt(parts, ps, k);
      RenameAllAt(parts, qs, k);
      if Misses(parts, k, ps) {
        forall j | 0 <= j < |qs| ensures !IsHit(parts, k, qs[j].from) {
          assert qs[j] in ps;
        }
      } else {
        var i :| 0 <= i < |ps| && IsHit(parts, k, ps[i].from);
        assert ps[i] in qs;
        var j :| 0 <= j < |qs| && qs[j] == ps[i];
      }
    }
  }

  lemma {:induction false} RenameAllKeepsLength(parts: seq<Part>, ps: seq<Pattern>)
    ensures |RenameAll(parts, ps)| == |parts|
    decreases ps
  {
    if ps != [] {
      RenamePartsAt(parts, ps[0], false);
      RenameAllKeepsLength(RenameParts(parts, ps[0], false), ps[1..]);
    }
  }

  // ---- Going through the table twice -------------------------------------------------------------------------------

  /** A token of one name shares a quote with the next token of that name. */
  ghost predicate SharesQuote(parts: seq<Part>, ps: seq<Pattern>) {
    exists i, k {:trigger TokenAt(parts, k, ps[i].from)} | 0 <= i < |ps| && 0 <= k < |parts| ::
      TokenAt(parts, k, ps[i].from) && TokenAt(parts, k + 1, ps[i].from)
  }

  lemma RowsAreApart(ps: seq<Pattern>, i: nat, j: nat)
    requires Separated(ps) && i < |ps| && j < |ps|
    ensures Apart(ps[i].from, ps[j].to) && Apart(ps[j].to, ps[i].from)
    ensures i != j ==> Apart(ps[i].from, ps[j].from) && Apart(ps[i].to, ps[j].to)
  {}

  lemma OneRowHits(parts: seq<Part>, k: nat, ps: seq<Pattern>, i: nat, j: nat)
    requires Separated(ps) && i < |ps| && j < |ps| && IsHit(parts, k, ps[i].from)
    ensures !TokenAt(parts, k, ps[j].to)
    ensures j != i ==> !TokenAt(parts, k, ps[j].from)
  {
    hide Separated, Apart;
    RowsAreApart(ps, i, j);
    HitIsToken(parts, k, ps[i].from);
    ApartTokensAt(parts, k, ps[i].from, ps[j].to);
    if i != j {
      ApartTokensAt(parts, k, ps[i].from, ps[j].from);
    }
  }

  /**
   The tokens after all passes: what was a token and was not renamed, and, of the new names, also what was renamed.
   */
  lemma TokenAfterAll(parts: seq<Part>, k: nat, ps: seq<Pattern>, i: nat)
    requires Separated(ps) && i < |ps|
    ensures
      var after := RenameAll(parts, ps);
      && TokenAt(after, k, ps[i].from) == (TokenAt(parts, k, ps[i].from) && !IsHit(parts, k, ps[i].from))
      && TokenAt(after, k, ps[i].to) == (TokenAt(parts, k, ps[i].to) || IsHit(parts, k, ps[i].from))
  {
    hide Separated, Apart, RenameAll, Hit, IsTokenBody, Renamed;
    RenameAllKeepsLength(parts, ps);
    var after := RenameAll(parts, ps);
    if IsHit(parts, k, ps[i].from) {
      HitIsToken(parts, k, ps[i].from);
    }
    if k + 1 < |parts| {
      RenameAllAt(parts, ps, k);
      RenameAllAt(parts, ps, k + 1);
      if j: nat :| j < |ps| && IsHit(parts, k, ps[j].from) {
        OneRowHits(parts, k, ps, j, i);
        HitIsToken(parts, k, ps[j].from);
        RenamedIsToken(parts[k].body, ps[j]);
        RowsAreApart(ps, i, j);
        ApartTokens(ps[j].to, ps[i].from, after[k].body);
        if i != j {
          RowsAreApart(ps, j, i);
          ApartTokens(ps[j].to, ps[i].to, after[k].body);
        }
      } else {
        assert Misses(parts, k, ps);
      }
    }
  }

  lemma HitsAreTokens(parts: seq<Part>, k: nat, name: string)
    ensures IsHit(parts, k, name) ==> TokenAt(parts, k, name) && k + 1 < |parts|
  {}

  lemma TokenIsHitOrTaken(parts: seq<Part>, k: nat, name: string)
    requires TokenAt(parts, k, name)
    ensures IsHit(parts, k, name) || (k > 0 && IsHit(parts, k - 1, name))
  {}

  ghost predicate NoTokens(parts: seq<Part>, ps: seq<Pattern>) {
    forall i, k {:trigger TokenAt(parts, k, ps[i].from)} | 0 <= i < |ps| && 0 <= k < |parts| ::
        !TokenAt(parts, k, ps[i].from)
  }

  /** The passes change nothing exactly on lines without a token. */
  lemma UnchangedMeansNoTokens(parts: seq<Part>, ps: seq<Pattern>)
    requires Separated(ps)
    ensures RenameAll(parts, ps) == parts <==> NoTokens(parts, ps)
  {
    hide Separated, Apart, RenameAll, Hit, TokenAt, Renamed;
    RenameAllKeepsLength(parts, ps);
    if NoTokens(parts, ps) {
      forall k | 0 <= k < |parts| ensures RenameAll(parts, ps)[k] == parts[k] {
        RenameAllAt(parts, ps, k);
        forall i | 0 <= i < |ps| ensures !IsHit(parts, k, ps[i].from) {
          if IsHit(parts, k, ps[i].from) {
            HitIsToken(parts, k, ps[i].from);
          }
        }
      }
    } else {
      var i: nat, k: nat :| i < |ps| && k < |parts| && TokenAt(parts, k, ps[i].from);
      TokenIsHitOrTaken(parts, k, ps[i].from);
      HitChanges(parts, if IsHit(parts, k, ps[i].from) then k else k - 1, ps, i);
    }
  }

  lemma HitChanges(parts: seq<Part>, k: nat, ps: seq<Pattern>, i: nat)
    requires Separated(ps) && i < |ps| && IsHit(parts, k, ps[i].from)
    ensures RenameAll(parts, ps) != parts
  {
    hide Separated, RenameAll, Hit;
    HitIsToken(parts, k, ps[i].from);
    TokenAfterAll(parts, k, ps, i);
  }

  lemma RenamingTwice(parts: seq<Part>, ps: seq<Pattern>)
    requires Separated(ps)
    ensures RenameAll(RenameAll(parts, ps), ps) == RenameAll(parts, ps) <==> !SharesQuote(parts, ps)
  {
    hide Separated, RenameAll, TokenAt;
    var after := RenameAll(parts, ps);
    RenameAllKeepsLength(parts, ps);
    UnchangedMeansNoTokens(after, ps);
    if SharesQuote(parts, ps) {
      var i: nat, k: nat :| i < |ps| && k < |parts| && TokenAt(parts, k, ps[i].from)
          && TokenAt(parts, k + 1, ps[i].from);
      TokenAfterAll(parts, k, ps, i);
      TokenAfterAll(parts, k + 1, ps, i);
      TokenIsInLine(parts, k + 1, ps[i].from);
      assert TokenAt(after, k, ps[i].from) || TokenAt(after, k + 1, ps[i].from);
    } else {
      forall i: nat, k: nat | i < |ps| && k < |parts| ensures !TokenAt(after, k, ps[i].from) {
        TokenAfterAll(parts, k, ps, i);
        if TokenAt(parts, k, ps[i].from) {
          TokenIsHitOrTaken(parts, k, ps[i].from);
          HitsAreTokens(parts, if k > 0 then k - 1 else 0, ps[i].from);
        }
      }
    }
  }

  lemma TokenIsInLine(parts: seq<Part>, k: nat, name: string)
    requires TokenAt(parts, k, name)
    ensures k + 1 < |parts|
  {}

  // ---- Going back --------------------------------------------------------------------------------------------------

  function Flip(p: Pattern): Pattern {
    Pattern(p.to, p.from)
  }

  function Reversed(ps: seq<Pattern>): seq<Pattern> {
    seq(|ps|, i requires 0 <= i < |ps| => Flip(ps[i]))
  }

  lemma ReversedIsSeparated(ps: seq<Pattern>)
    requires Separated(ps)
    ensures Separated(Reversed(ps))
  {
    var rs := Reversed(ps);
    forall i, j | 0 <= i < |rs| && 0 <= j < |rs| ensures Apart(rs[i].from, rs[j].to) {
      RowsAreApart(ps, j, i);
    }
    forall i, j | 0 <= i < j < |rs| ensures Apart(rs[i].from, rs[j].from) && Apart(rs[i].to, rs[j].to) {
      RowsAreApart(ps, i, j);
    }
  }

  /** Every token of a new name follows, sharing its quote, a token of the old name that gets renamed. */
  ghost predicate Restorable(parts: seq<Part>, ps: seq<Pattern>) {
    forall i, k {:trigger TokenAt(parts, k, ps[i].to)} | 0 <= i < |ps| && 0 <= k < |parts|
        && TokenAt(parts, k, ps[i].to) ::
      k > 0 && IsHit(parts, k - 1, ps[i].from)
  }

  lemma {:induction false} HitsComeBack(parts: seq<Part>, ps: seq<Pattern>, i: nat, k: nat)
    requires Separated(ps) && Restorable(parts, ps) && i < |ps|
    ensures IsHit(RenameAll(parts, ps), k, ps[i].to) == IsHit(parts, k, ps[i].from)
    decreases k
  {
    hide Separated, RenameAll, TokenAt;
    TokenAfterAll(parts, k, ps, i);
    if TokenAt(parts, k, ps[i].to) {
      TokenIsInLine(parts, k, ps[i].to);
    }
    if IsHit(parts, k, ps[i].from) {
      OneRowHits(parts, k, ps, i, i);
    }
    if k > 0 {
      HitsComeBack(parts, ps, i, k - 1);
    }
  }

  lemma GoingBack(parts: seq<Part>, ps: seq<Pattern>)
    requires Separated(ps)
    ensures RenameAll(RenameAll(parts, ps), Reversed(ps)) == parts <==> Restorable(parts, ps)
  {
    hide *;
    if Restorable(parts, ps) {
      ReversalRestores(parts, ps);
    }
    if RenameAll(RenameAll(parts, ps), Reversed(ps)) == parts {
      RestoredIsRestorable(parts, ps);
    }
  }

  lemma ReversalRestores(parts: seq<Part>, ps: seq<Pattern>)
    requires Separated(ps) && Restorable(parts, ps)
    ensures RenameAll(RenameAll(parts, ps), Reversed(ps)) == parts
  {
    hide Separated, RenameAll, Hit, IsHit, Renamed, Restorable, TokenAt, IsTokenBody;
    var after, rs := RenameAll(parts, ps), Reversed(ps);
    ReversedIsSeparated(ps);
    RenameAllKeepsLength(parts, ps);
    RenameAllKeepsLength(after, rs);
    forall k: nat | k < |parts| ensures RenameAll(after, rs)[k] == parts[k] {
      RenameAllAt(parts, ps, k);
      RenameAllAt(after, rs, k);
      forall i: nat | i < |ps| ensures IsHit(after, k, rs[i].from) == IsHit(parts, k, ps[i].from) {
        HitsComeBack(parts, ps, i, k);
      }
      if i: nat :| i < |ps| && IsHit(parts, k, ps[i].from) {
        HitBody(parts, k, ps[i].from);
        RenamedIsToken(parts[k].body, ps[i]);
        assert IsHit(after, k, rs[i].from);
      } else {
        assert Misses(parts, k, ps) && Misses(after, k, rs);
      }
    }
  }

  lemma HitBody(parts: seq<Part>, k: nat, name: string)
    requires IsHit(parts, k, name)
    ensures k < |parts| && IsTokenBody(parts[k].body, name)
  {}

  lemma RestoredIsRestorable(parts: seq<Part>, ps: seq<Pattern>)
    requires Separated(ps) && RenameAll(RenameAll(parts, ps), Reversed(ps)) == parts
    ensures Restorable(parts, ps)
  {
    hide Separated, RenameAll, Hit, IsHit, TokenAt;
    var after, rs := RenameAll(parts, ps), Reversed(ps);
    ReversedIsSeparated(ps);
    forall i: nat, k: nat | i < |ps| && k < |parts| && TokenAt(parts, k, ps[i].to)
      ensures k > 0 && IsHit(parts, k - 1, ps[i].from)
    {
      TokenAfterAll(parts, k, ps, i);
      TokenAfterAll(after, k, rs, i);
      assert rs[i].from == ps[i].to && rs[i].to == ps[i].from;
      TokenIsHitOrTaken(after, k, ps[i].to);
      TokenAfterAll(parts, k - 1, ps, i);
      TokenAfterAll(after, k - 1, rs, i);
      HitsAreTokens(after, k - 1, ps[i].to);
      RowsAreApart(ps, i, i);
      ApartTokensAt(parts, k - 1, ps[i].from, ps[i].to);
    }
  }
}
