/**
 Edits that share files. A text is cut once, at the sites of all its edits; a run over the edits is then told by which
 form stands at which site.
 */
module EditSites {
  import opened Strings
  import opened Wrappers
  import opened ExactEdits
  import opened EditRuns

  // ---- A text and the sites of its edits ---------------------------------------------------------------------------

  /** A text without the forms of its edits; sites[i] numbers the edit whose form stands behind pieces[i]. */
  datatype Cut = Cut(pieces: seq<string>, sites: seq<nat>) {
    predicate Valid(n: nat) {
      |pieces| == |sites| + 1 && forall i | 0 <= i < |sites| :: sites[i] < n
    }

    function Tail(n: nat): (c: Cut)
      requires Valid(n) && sites != []
      ensures c.Valid(n)
    {
      Cut(pieces[1..], sites[1..])
    }
  }

  /** The text with a form of each edit at the sites of that edit. */
  function Render(c: Cut, forms: seq<string>): string
    requires c.Valid(|forms|)
    decreases |c.sites|
  {
    if c.sites == [] then c.pieces[0]
    else c.pieces[0] + forms[c.sites[0]] + Render(c.Tail(|forms|), forms)
  }

  /** The stretches of that text between the sites of edit k, the forms of the other edits in place. */
  function Between(c: Cut, k: nat, forms: seq<string>): (texts: seq<string>)
    requires c.Valid(|forms|)
    ensures texts != []
    decreases |c.sites|
  {
    if c.sites == [] then [c.pieces[0]]
    else
      var rest := Between(c.Tail(|forms|), k, forms);
      if c.sites[0] == k then [c.pieces[0]] + rest
      else [c.pieces[0] + forms[c.sites[0]] + rest[0]] + rest[1..]
  }

  function SiteCount(c: Cut, k: nat): nat {
    multiset(c.sites)[k]
  }

  lemma JoinBehind(a: string, texts: seq<string>, form: string)
    requires texts != []
    ensures JoinWith([a + texts[0]] + texts[1..], form) == a + JoinWith(texts, form)
  {
    if |texts| == 1 {
      assert [a + texts[0]] + texts[1..] == [a + texts[0]];
    } else {
      JoinWithCons(a + texts[0], texts[1..], form);
      assert a + texts[0] + form + JoinWith(texts[1..], form) == a + (texts[0] + form + JoinWith(texts[1..], form));
    }
  }

  lemma {:induction false} JoinOfBetween(c: Cut, k: nat, forms: seq<string>)
    requires c.Valid(|forms|) && k < |forms|
    ensures JoinWith(Between(c, k, forms), forms[k]) == Render(c, forms)
    decreases |c.sites|
  {
    if c.sites != [] {
      var rest := Between(c.Tail(|forms|), k, forms);
      JoinOfBetween(c.Tail(|forms|), k, forms);
      if c.sites[0] == k {
        JoinWithCons(c.pieces[0], rest, forms[k]);
      } else {
        JoinBehind(c.pieces[0] + forms[c.sites[0]], rest, forms[k]);
      }
    }
  }

  /** The stretches do not depend on the form of the edit they are cut at, and there is one more of them than sites. */
  lemma {:induction false} OwnFormIsFree(c: Cut, k: nat, forms: seq<string>, form: string)
    requires c.Valid(|forms|) && k < |forms|
    ensures Between(c, k, forms[k := form]) == Between(c, k, forms)
    ensures |Between(c, k, forms)| == SiteCount(c, k) + 1
    decreases |c.sites|
  {
    if c.sites != [] {
      assert c.sites == [c.sites[0]] + c.sites[1..];
      OwnFormIsFree(c.Tail(|forms|), k, forms, form);
    }
  }

  lemma {:induction false} OtherFormsAreFree(c: Cut, k: nat, forms: seq<string>, form: string)
    requires c.Valid(|forms|) && k < |forms| && forall i | 0 <= i < |c.sites| :: c.sites[i] != k
    ensures Render(c, forms[k := form]) == Render(c, forms)
    decreases |c.sites|
  {
    if c.sites != [] {
      OtherFormsAreFree(c.Tail(|forms|), k, forms, form);
    }
  }

  /** Replacing one form replaces it at its sites, and only there, exactly when it occurs nowhere else. */
  lemma ReplacedAtSites(c: Cut, k: nat, forms: seq<string>, form: string)
    requires c.Valid(|forms|) && k < |forms| && forms[k] != ""
    ensures Split(Render(c, forms), forms[k]) == Between(c, k, forms) <==> Clear(Between(c, k, forms), forms[k])
    ensures Clear(Between(c, k, forms), forms[k]) ==>
              Applying(Render(c, forms), forms[k], form) == Render(c, forms[k := form])
  {
    hide PiecesBetween, Clear, Between, Render;
    JoinOfBetween(c, k, forms);
    PiecesOfJoin(Between(c, k, forms), forms[k]);
    OwnFormIsFree(c, k, forms, form);
    assert c.Valid(|forms[k := form]|);
    JoinOfBetween(c, k, forms[k := form]);
  }

  // ---- The texts during a run --------------------------------------------------------------------------------------

  /** The forms that stand at the sites when the edits below k are written. */
  function Standing(edits: seq<Edit>, k: nat): (forms: seq<string>)
    ensures |forms| == |edits|
  {
    seq(|edits|, j requires 0 <= j < |edits| => if j < k then edits[j].replace else edits[j].find)
  }

  predicate FitsFile(c: Cut, edits: seq<Edit>, f: string) {
    c.Valid(|edits|) && forall i | 0 <= i < |c.sites| :: edits[c.sites[i]].file == f
  }

  /** A cut for each file, at sites of the edits of that file only. */
  predicate Fits(cuts: map<string, Cut>, edits: seq<Edit>) {
    && (forall k | 0 <= k < |edits| :: edits[k].file in cuts)
    && (forall f | f in cuts :: FitsFile(cuts[f], edits, f))
  }

  function Texts(cuts: map<string, Cut>, edits: seq<Edit>, forms: seq<string>): (texts: map<string, string>)
    requires Fits(cuts, edits) && |forms| == |edits|
    ensures texts.Keys == cuts.Keys
  {
    map f | f in cuts :: Render(cuts[f], forms)
  }

  /** The stretches between the sites of edit k. */
  function Stretches(cuts: map<string, Cut>, edits: seq<Edit>, k: nat, forms: seq<string>): (texts: seq<string>)
    requires Fits(cuts, edits) && |forms| == |edits| && k < |edits|
    ensures texts != []
  {
    Between(cuts[edits[k].file], k, forms)
  }

  predicate Idle(e: Edit) {
    e.find == e.replace
  }

  /** With the edits below k written, what edit k replaces occurs at its sites only. */
  ghost predicate ClearAt(cuts: map<string, Cut>, edits: seq<Edit>, k: nat)
    requires Fits(cuts, edits) && k < |edits|
  {
    Idle(edits[k]) || Clear(Stretches(cuts, edits, k, Standing(edits, k)), edits[k].find)
  }

  ghost predicate AllClear(cuts: map<string, Cut>, edits: seq<Edit>, n: nat)
    requires Fits(cuts, edits) && n <= |edits|
  {
    forall k: nat | k < n :: ClearAt(cuts, edits, k)
  }

  /** The write of edit k, on what the ones before it left, cuts its file at the sites of edit k. */
  ghost predicate HitsSites(files: map<string, string>, cuts: map<string, Cut>, edits: seq<Edit>, k: nat)
    requires Fits(cuts, edits) && k < |edits| && files.Keys == cuts.Keys
  {
    Idle(edits[k]) || Split(TextBefore(files, edits, k), edits[k].find) == Stretches(cuts, edits, k, Standing(edits, k))
  }

  ghost predicate AllHit(files: map<string, string>, cuts: map<string, Cut>, edits: seq<Edit>, n: nat)
    requires Fits(cuts, edits) && n <= |edits| && files.Keys == cuts.Keys
  {
    forall k: nat | k < n :: HitsSites(files, cuts, edits, k)
  }

  /** What the file of edit k holds when edit k is to be written. */
  function TextBefore(files: map<string, string>, edits: seq<Edit>, k: nat): string
    requires AllReadable(files, edits) && k < |edits|
  {
    WrittenKeepsFiles(files, edits[..k]);
    assert Readable(files, edits[k]);
    Written(files, edits[..k])[edits[k].file]
  }

  lemma StandingStep(edits: seq<Edit>, k: nat)
    requires k < |edits|
    ensures Standing(edits, k)[k] == edits[k].find
    ensures Standing(edits, k + 1) == Standing(edits, k)[k := edits[k].replace]
  {}

  lemma IdleWritesNothing(text: string, form: string)
    requires form != ""
    ensures Applying(text, form, form) == text
  {
    JoinOfPieces(text, form);
  }

  /** One write, on the texts in which the edits below k are written. */
  lemma WriteAtSites(cuts: map<string, Cut>, edits: seq<Edit>, k: nat)
    requires Fits(cuts, edits) && k < |edits| && edits[k].find != ""
    ensures
      var e, texts := edits[k], Texts(cuts, edits, Standing(edits, k));
      && Readable(texts, e)
      && (Split(texts[e.file], e.find) == Stretches(cuts, edits, k, Standing(edits, k))
          <==> Clear(Stretches(cuts, edits, k, Standing(edits, k)), e.find))
      && (ClearAt(cuts, edits, k) ==> Write(texts, e) == Texts(cuts, edits, Standing(edits, k + 1)))
  {
    hide Render, Between, Split, Applying, Clear;
    var e, forms := edits[k], Standing(edits, k);
    var texts := Texts(cuts, edits, forms);
    StandingStep(edits, k);
    assert FitsFile(cuts[e.file], edits, e.file);
    ReplacedAtSites(cuts[e.file], k, forms, e.replace);
    if ClearAt(cuts, edits, k) {
      if Idle(e) {
        IdleWritesNothing(texts[e.file], e.find);
        assert forms[k := e.replace] == forms;
      }
      forall f | f in cuts && f != e.file ensures Render(cuts[f], Standing(edits, k + 1)) == texts[f] {
        assert FitsFile(cuts[f], edits, f);
        OtherFormsAreFree(cuts[f], k, forms, e.replace);
      }
      EqualMaps(Write(texts, e), Texts(cuts, edits, Standing(edits, k + 1)));
    }
  }

  lemma FilesAreReadable(cuts: map<string, Cut>, edits: seq<Edit>, files: map<string, string>)
    requires Fits(cuts, edits) && files.Keys == cuts.Keys
    ensures AllReadable(files, edits)
  {}

  /**
   The writes of a run hit their own sites, each and only these, exactly when at each write the form to replace occurs
   nowhere else; and then the run puts the new form at every site.
   */
  lemma {:induction false} RunHitsExactlyWhenClear(cuts: map<string, Cut>, edits: seq<Edit>, n: nat)
    requires Fits(cuts, edits) && n <= |edits| && forall k | 0 <= k < |edits| :: edits[k].find != ""
    ensures
      var files := Texts(cuts, edits, Standing(edits, 0));
      && (AllHit(files, cuts, edits, n) <==> AllClear(cuts, edits, n))
      && AllReadable(files, edits[..n])
      && (AllClear(cuts, edits, n) ==> Written(files, edits[..n]) == Texts(cuts, edits, Standing(edits, n)))
  {
    hide Split, Clear, Texts, Stretches, Applying, Standing;
    var files := Texts(cuts, edits, Standing(edits, 0));
    FilesAreReadable(cuts, edits, files);
    if n == 0 {
      assert edits[..0] == [];
    } else {
      RunHitsExactlyWhenClear(cuts, edits, n - 1);
      WriteAtSites(cuts, edits, n - 1);
      WrittenOneMore(files, edits, n - 1);
      if AllClear(cuts, edits, n - 1) {
        assert HitsSites(files, cuts, edits, n - 1) <==> ClearAt(cuts, edits, n - 1);
      }
      assert AllHit(files, cuts, edits, n)
          == (AllHit(files, cuts, edits, n - 1) && HitsSites(files, cuts, edits, n - 1));
    }
  }

  // ---- A run over edits of which some are applied already ----------------------------------------------------------

  /** The edits of a run, those applied already with nothing left to replace. */
  function Outstanding(files: map<string, string>, edits: seq<Edit>): (rest: seq<Edit>)
    requires AllReadable(files, edits)
    ensures |rest| == |edits|
    ensures forall i | 0 <= i < |edits| :: Readable(files, edits[i]) && rest[i] == LeftOf(files, edits[i])
    ensures AllReadable(files, rest)
  {
    seq(|edits|, i requires 0 <= i < |edits| => assert Readable(files, edits[i]); LeftOf(files, edits[i]))
  }

  function LeftOf(files: map<string, string>, e: Edit): (left: Edit)
    requires Readable(files, e)
    ensures left.file == e.file && left.replace == e.replace
  {
    if StateIn(files, e) == Applied then e.(find := e.replace) else e
  }

  lemma {:induction false} WritingTheOutstanding(base: map<string, string>, files: map<string, string>,
      edits: seq<Edit>)
    requires AllReadable(base, edits) && files.Keys == base.Keys && InState(base, edits, Invalid) == []
    requires forall i | 0 <= i < |edits| :: Usable(edits[i])
    ensures AllReadable(files, InState(base, edits, Pending)) && AllReadable(files, Outstanding(base, edits))
    ensures Written(files, InState(base, edits, Pending)) == Written(files, Outstanding(base, edits))
    decreases edits
  {
    if edits != [] {
      hide *;
      FirstOutstanding(base, files, edits);
      var left, planned := Outstanding(base, edits), InState(base, edits, Pending);
      WrittenStep(files, left);
      if left[0] == edits[0] {
        WritingTheOutstanding(base, Write(files, edits[0]), edits[1..]);
        WrittenStep(files, planned);
      } else {
        WritingTheOutstanding(base, files, edits[1..]);
      }
    }
  }

  lemma FirstOutstanding(base: map<string, string>, files: map<string, string>, edits: seq<Edit>)
    requires AllReadable(base, edits) && edits != [] && InState(base, edits, Invalid) == []
    requires Usable(edits[0]) && files.Keys == base.Keys
    ensures AllReadable(base, edits[1..]) && InState(base, edits[1..], Invalid) == []
    ensures
      var e, left, planned := edits[0], Outstanding(base, edits), InState(base, edits, Pending);
      && left != [] && left[1..] == Outstanding(base, edits[1..])
      && AllReadable(files, left) && AllReadable(files, planned) && Readable(files, e) && Readable(files, left[0])
      && Write(files, e).Keys == files.Keys
      && (left[0] == e ==> planned != [] && planned[0] == e && planned[1..] == InState(base, edits[1..], Pending))
      && (left[0] != e ==> planned == InState(base, edits[1..], Pending) && Write(files, left[0]) == files)
  {
    hide ExactEditState, Applying;
    var e, rest := edits[0], InState(base, edits[1..], Pending);
    assert Readable(base, e);
    IdleWritesNothing(files[e.file], e.replace);
    PlannedAreReadable(base, files, edits, Pending);
    assert ([e] + rest)[1..] == rest;
    assert files[e.file := files[e.file]] == files;
  }

  lemma {:induction false} PlannedAreReadable(base: map<string, string>, files: map<string, string>, edits: seq<Edit>,
      state: EditState)
    requires AllReadable(base, edits) && files.Keys == base.Keys
    ensures AllReadable(files, InState(base, edits, state))
    decreases edits
  {
    if edits != [] {
      hide StateIn;
      PlannedAreReadable(base, files, edits[1..], state);
    }
  }

  /** With every new form in place: it occurs at its sites only, as often as expected, and the old form is gone. */
  ghost predicate Landed(cuts: map<string, Cut>, edits: seq<Edit>, k: nat)
    requires Fits(cuts, edits) && k < |edits|
  {
    var e, forms := edits[k], Standing(edits, |edits|);
    assert FitsFile(cuts[e.file], edits, e.file);
    && Clear(Stretches(cuts, edits, k, forms), e.replace)
    && SiteCount(cuts[e.file], k) == e.count
    && (Includes(e.replace, e.find) || !Includes(Render(cuts[e.file], forms), e.find))
  }

  /** An edit is judged applied, on the strength of its own sites. */
  ghost predicate AppliedAtSites(files: map<string, string>, cuts: map<string, Cut>, edits: seq<Edit>, k: nat)
    requires Fits(cuts, edits) && k < |edits| && files.Keys == cuts.Keys
  {
    && StateIn(files, edits[k]) == Applied
    && Split(files[edits[k].file], edits[k].replace) == Stretches(cuts, edits, k, Standing(edits, |edits|))
  }

  lemma AppliedAtSitesExactlyWhenLanded(cuts: map<string, Cut>, edits: seq<Edit>, k: nat)
    requires Fits(cuts, edits) && k < |edits| && Usable(edits[k])
    ensures AppliedAtSites(Texts(cuts, edits, Standing(edits, |edits|)), cuts, edits, k) <==> Landed(cuts, edits, k)
  {
    hide Between, Split, Clear, Includes, Applying, Render;
    var e, forms := edits[k], Standing(edits, |edits|);
    assert FitsFile(cuts[e.file], edits, e.file);
    var c := cuts[e.file];
    ReplacedAtSites(c, k, forms, e.replace);
    OwnFormIsFree(c, k, forms, e.replace);
    NoHitsMeansAbsent(Render(c, forms), e.find);
  }

  /**
   A run that rejects nothing, over any edits of which some may be applied already: its writes hit their sites and
   afterwards every edit is judged applied on the strength of its sites, if and only if the texts are clear at each
   write and each edit landed in the text that bears all new forms.
   */
  lemma CleanRunLandsExactlyWhen(files: map<string, string>, cuts: map<string, Cut>, edits: seq<Edit>)
    requires AllReadable(files, edits) && InState(files, edits, Invalid) == []
    requires forall i | 0 <= i < |edits| :: Usable(edits[i])
    requires Fits(cuts, edits) && files == Texts(cuts, edits, Standing(Outstanding(files, edits), 0))
    ensures Fits(cuts, Outstanding(files, edits)) && AllReadable(files, InState(files, edits, Pending))
    ensures
      var rest, after := Outstanding(files, edits), Written(files, InState(files, edits, Pending));
      after.Keys == cuts.Keys
      && ((AllHit(files, cuts, rest, |rest|) && forall k: nat | k < |edits| :: AppliedAtSites(after, cuts, edits, k))
          <==> AllClear(cuts, rest, |rest|) && forall k: nat | k < |edits| :: Landed(cuts, edits, k))
      && (AllClear(cuts, rest, |rest|) ==> after == Texts(cuts, edits, Standing(edits, |edits|)))
  {
    hide Clear, Split, Includes, ExactEditState, Applying, Render, Stretches, Landed, AppliedAtSites, Usable, Texts;
    var n, rest := |edits|, Outstanding(files, edits);
    OutstandingFits(files, cuts, edits);
    WritingTheOutstanding(files, files, edits);
    var after := Written(files, InState(files, edits, Pending));
    WrittenKeepsFiles(files, InState(files, edits, Pending));
    LeftIsProper(files, edits);
    assert Standing(rest, n) == Standing(edits, n);
    SameTexts(cuts, edits, rest, Standing(rest, 0));
    SameTexts(cuts, edits, rest, Standing(rest, n));
    assert rest[..n] == rest;
    RunHitsExactlyWhenClear(cuts, rest, n);
    if AllClear(cuts, rest, n) {
      forall k: nat | k < n ensures AppliedAtSites(after, cuts, edits, k) <==> Landed(cuts, edits, k) {
        AppliedAtSitesExactlyWhenLanded(cuts, edits, k);
      }
    }
  }

  lemma UsableForms(edits: seq<Edit>)
    requires forall i | 0 <= i < |edits| :: Usable(edits[i])
    ensures forall i | 0 <= i < |edits| :: edits[i].find != ""
    ensures |Reversed(edits)| == |edits| && forall i | 0 <= i < |edits| :: Reversed(edits)[i].find != ""
  {
    forall i | 0 <= i < |edits| ensures edits[i].find != "" && edits[i].replace != "" {
      assert Usable(edits[i]);
    }
  }

  lemma LeftIsProper(files: map<string, string>, edits: seq<Edit>)
    requires AllReadable(files, edits) && forall i | 0 <= i < |edits| :: Usable(edits[i])
    ensures forall i | 0 <= i < |edits| :: Outstanding(files, edits)[i].find != ""
  {
    forall i | 0 <= i < |edits| ensures Outstanding(files, edits)[i].find != "" {
      assert Usable(edits[i]) && Readable(files, edits[i]);
    }
  }

  lemma OutstandingFits(files: map<string, string>, cuts: map<string, Cut>, edits: seq<Edit>)
    requires AllReadable(files, edits) && Fits(cuts, edits)
    ensures Fits(cuts, Outstanding(files, edits))
  {
    hide StateIn;
    var rest := Outstanding(files, edits);
    forall k | 0 <= k < |edits| ensures rest[k].file == edits[k].file {
      assert Readable(files, edits[k]);
    }
    forall f | f in cuts ensures FitsFile(cuts[f], rest, f) {
      assert FitsFile(cuts[f], edits, f);
    }
  }

  lemma SameTexts(cuts: map<string, Cut>, edits: seq<Edit>, others: seq<Edit>, forms: seq<string>)
    requires Fits(cuts, edits) && Fits(cuts, others) && |edits| == |others| == |forms|
    ensures Texts(cuts, edits, forms) == Texts(cuts, others, forms)
  {}

  // ---- The reverse run ---------------------------------------------------------------------------------------------

  lemma ReversedFits(cuts: map<string, Cut>, edits: seq<Edit>)
    requires Fits(cuts, edits)
    ensures Fits(cuts, Reversed(edits))
    ensures Standing(Reversed(edits), 0) == Standing(edits, |edits|)
    ensures Standing(Reversed(edits), |edits|) == Standing(edits, 0)
  {
    forall f | f in cuts ensures FitsFile(cuts[f], Reversed(edits), f) {
      assert FitsFile(cuts[f], edits, f);
    }
  }

  /** The texts are clear at every write of the run and of the reverse run after it. */
  ghost predicate ClearBothWays(cuts: map<string, Cut>, edits: seq<Edit>)
    requires Fits(cuts, edits)
  {
    ReversedFits(cuts, edits);
    AllClear(cuts, edits, |edits|) && AllClear(cuts, Reversed(edits), |edits|)
  }

  lemma BothWays(cuts: map<string, Cut>, edits: seq<Edit>)
    requires Fits(cuts, edits)
    ensures Fits(cuts, Reversed(edits)) && |Reversed(edits)| == |edits|
    ensures ClearBothWays(cuts, edits)
            == (AllClear(cuts, edits, |edits|) && AllClear(cuts, Reversed(edits), |edits|))
  {
    ReversedFits(cuts, edits);
  }

  /**
   A run over edits that may share files, and the reverse run in the same order: both hit their sites if and only if
   the texts are clear at every write of both; and then every file is restored.
   */
  lemma RunIsReversibleExactlyWhen(cuts: map<string, Cut>, edits: seq<Edit>)
    requires Fits(cuts, edits) && forall i | 0 <= i < |edits| :: Usable(edits[i])
    ensures Fits(cuts, Reversed(edits))
    ensures
      var n, files, back := |edits|, Texts(cuts, edits, Standing(edits, 0)), Reversed(edits);
      && AllReadable(files, edits) && AllReadable(Written(files, edits), back)
      && Written(files, edits).Keys == cuts.Keys
      && ((AllHit(files, cuts, edits, n) && AllHit(Written(files, edits), cuts, back, n))
          <==> ClearBothWays(cuts, edits))
      && (ClearBothWays(cuts, edits) ==> Written(Written(files, edits), back) == files)
  {
    hide *;
    BothWays(cuts, edits);
    var n, files, back := |edits|, Texts(cuts, edits, Standing(edits, 0)), Reversed(edits);
    ReversedFits(cuts, edits);
    UsableForms(edits);
    FilesAreReadable(cuts, edits, files);
    WrittenKeepsFiles(files, edits);
    FilesAreReadable(cuts, back, Written(files, edits));
    SameTexts(cuts, edits, back, Standing(edits, 0));
    SameTexts(cuts, edits, back, Standing(edits, n));
    assert edits[..n] == edits && back[..n] == back;
    RunHitsExactlyWhenClear(cuts, edits, n);
    RunHitsExactlyWhenClear(cuts, back, n);
  }

  /**
   The program there and back: when all edits are pending, all texts clear and all edits landed, the run writes every
   edit, a second run plans and rejects nothing, and the reverse run rejects nothing, plans every edit and restores all
   files.
   */
  lemma ClearRunsGoThereAndBack(files: map<string, string>, cuts: map<string, Cut>, edits: seq<Edit>)
    requires Fits(cuts, edits) && forall i | 0 <= i < |edits| :: Usable(edits[i])
    requires files == Texts(cuts, edits, Standing(edits, 0)) && AllIn(files, edits, Pending)
    requires ClearBothWays(cuts, edits) && forall k: nat | k < |edits| :: Landed(cuts, edits, k)
    ensures AllReadable(files, edits) && InState(files, edits, Pending) == edits && InState(files, edits, Invalid) == []
    ensures
      var after, back := Written(files, edits), Reversed(edits);
      && AllReadable(after, edits) && AllReadable(after, back)
      && InState(after, edits, Pending) == [] && InState(after, edits, Invalid) == []
      && InState(after, back, Pending) == back && InState(after, back, Invalid) == []
      && Written(after, back) == files
  {
    hide Clear, Split, Applying, Render, Stretches, Texts, AllClear, AllHit, Standing, Landed, StateIn, Usable, Written;
    UsableForms(edits);
    var n, after := |edits|, Written(files, edits);
    RunIsReversibleExactlyWhen(cuts, edits);
    BothWays(cuts, edits);
    RunHitsExactlyWhenClear(cuts, edits, n);
    assert edits[..n] == edits;
    AllOfOneState(files, edits, Pending, Invalid);
    forall k: nat | k < n ensures edits[k].file in after && StateIn(after, edits[k]) == Applied {
      assert Usable(edits[k]);
      AppliedAtSitesExactlyWhenLanded(cuts, edits, k);
    }
    NothingLeftToApply(after, edits);
  }

  lemma InStateOfFirst(files: map<string, string>, edits: seq<Edit>, state: EditState)
    requires AllReadable(files, edits) && edits != []
    ensures Readable(files, edits[0]) && AllReadable(files, edits[1..])
    ensures InState(files, edits, state)
            == (if StateIn(files, edits[0]) == state then [edits[0]] else []) + InState(files, edits[1..], state)
  {
    assert Readable(files, edits[0]);
  }

  lemma {:induction false} AllOfOneState(files: map<string, string>, edits: seq<Edit>, state: EditState,
      other: EditState)
    requires AllIn(files, edits, state) && other != state
    ensures AllReadable(files, edits) && InState(files, edits, state) == edits && InState(files, edits, other) == []
    decreases edits
  {
    if edits != [] {
      hide ExactEditState;
      assert Readable(files, edits[0]) && StateIn(files, edits[0]) == state;
      AllOfOneState(files, edits[1..], state, other);
      hide *;
      InStateOfFirst(files, edits, state);
      InStateOfFirst(files, edits, other);
      assert edits == [edits[0]] + edits[1..];
    }
  }

  // ---- Two edits of one file ---------------------------------------------------------------------------------------

  /** Two insertions into one file that meets every condition above. */
  const SCOPING: seq<Edit> := [Edit("left", "f", "a", "@a", 1), Edit("right", "f", "b", "@b", 1)]

  const SCOPED: map<string, Cut> := map["f" := Cut(["", "-", ""], [0, 1])]

  lemma AtTwoSites(c: Cut, forms: seq<string>)
    requires c.Valid(|forms|) && |c.sites| == 2
    ensures Render(c, forms) == c.pieces[0] + forms[c.sites[0]] + c.pieces[1] + forms[c.sites[1]] + c.pieces[2]
    ensures c.sites == [0, 1] ==>
              && Between(c, 0, forms) == [c.pieces[0], c.pieces[1] + forms[1] + c.pieces[2]]
              && Between(c, 1, forms) == [c.pieces[0] + forms[0] + c.pieces[1], c.pieces[2]]
    ensures c.sites == [1, 0] ==>
              && Between(c, 1, forms) == [c.pieces[0], c.pieces[1] + forms[0] + c.pieces[2]]
              && Between(c, 0, forms) == [c.pieces[0] + forms[1] + c.pieces[1], c.pieces[2]]
  {
    var tail := c.Tail(|forms|);
    var last := tail.Tail(|forms|);
    assert last.sites == [] && last.pieces[0] == c.pieces[2];
    AtOneSite(tail, forms);
  }

  lemma AtOneSite(c: Cut, forms: seq<string>)
    requires c.Valid(|forms|) && |c.sites| == 1
    ensures Render(c, forms) == c.pieces[0] + forms[c.sites[0]] + c.pieces[1]
    ensures forall k: nat :: Between(c, k, forms) ==
              if c.sites[0] == k then c.pieces else [c.pieces[0] + forms[c.sites[0]] + c.pieces[1]]
  {
    var last := c.Tail(|forms|);
    assert last.sites == [] && last.pieces == [c.pieces[1]];
    forall k: nat
      ensures Between(c, k, forms) ==
              if c.sites[0] == k then c.pieces else [c.pieces[0] + forms[c.sites[0]] + c.pieces[1]]
    {
      assert c.pieces == [c.pieces[0]] + last.pieces;
      assert Between(last, k, forms) == last.pieces;
    }
  }

  /** The text is too short there for the form, or differs in one of its first two characters. */
  predicate Differs(text: string, j: nat, form: string) {
    || j + |form| > |text| || (form != "" && text[j] != form[0])
    || (|form| > 1 && j + 1 < |text| && text[j + 1] != form[1])
  }

  lemma DiffersNowhereStarts(text: string, j: nat, form: string)
    requires Differs(text, j, form)
    ensures !StartsAt(text, j, form)
  {
    if j + |form| <= |text| {
      var here := text[j..j + |form|];
      assert form != "" ==> here[0] == text[j];
      assert |form| > 1 ==> here[1] == text[j + 1];
    }
  }

  lemma ClearOfTwo(a: string, b: string, form: string)
    requires forall j | 0 <= j < |a| :: Differs(a + form + b, j, form)
    requires forall j | 0 <= j <= |b| :: Differs(b, j, form)
    ensures Clear([a, b], form)
  {
    forall text, j: nat | Differs(text, j, form) ensures !StartsAt(text, j, form) {
      DiffersNowhereStarts(text, j, form);
    }
    assert [a, b][1..] == [b];
    JoinOfTwo(a, b, form);
  }

  lemma ScopingForms()
    ensures Fits(SCOPED, SCOPING) && Fits(SCOPED, Reversed(SCOPING))
    ensures Standing(SCOPING, 0) == ["a", "b"] && Standing(SCOPING, 1) == ["@a", "b"]
    ensures Standing(SCOPING, 2) == Standing(Reversed(SCOPING), 0) == ["@a", "@b"]
    ensures Standing(Reversed(SCOPING), 1) == ["a", "@b"]
  {
    assert FitsFile(SCOPED["f"], SCOPING, "f");
    ReversedFits(SCOPED, SCOPING);
  }

  lemma ScopingStretches()
    ensures
      var c := SCOPED["f"];
      && c.Valid(2)
      && Between(c, 0, ["a", "b"]) == ["", "-b"] && Between(c, 1, ["@a", "b"]) == ["@a-", ""]
      && Between(c, 0, ["@a", "@b"]) == ["", "-@b"] && Between(c, 1, ["a", "@b"]) == ["a-", ""]
      && Between(c, 1, ["@a", "@b"]) == ["@a-", ""]
      && Render(c, ["a", "b"]) == "a-b" && Render(c, ["@a", "@b"]) == "@a-@b"
  {
    hide Between, Render;
    var c := SCOPED["f"];
    AtTwoSites(c, ["a", "b"]);
    AtTwoSites(c, ["@a", "b"]);
    AtTwoSites(c, ["a", "@b"]);
    AtTwoSites(c, ["@a", "@b"]);
    assert "-" + "b" + "" == "-b" && "-" + "@b" + "" == "-@b";
    assert "" + "a" + "-" == "a-" && "" + "@a" + "-" == "@a-";
  }

  lemma ScopingIsClear()
    ensures Clear(["", "-b"], "a") && Clear(["@a-", ""], "b")
    ensures Clear(["", "-@b"], "@a") && Clear(["a-", ""], "@b") && Clear(["@a-", ""], "@b")
  {
    hide Clear;
    ClearOfTwo("", "-b", "a");
    ClearOfTwo("@a-", "", "b");
    ClearOfTwo("", "-@b", "@a");
    ClearOfTwo("a-", "", "@b");
    ClearOfTwo("@a-", "", "@b");
  }

  lemma ScopingIsPending()
    ensures ExactEditState("a-b", "a", "@a", 1) == ExactEditState("a-b", "b", "@b", 1) == Pending
    ensures Includes("@a", "a") && Includes("@b", "b")
  {
    hide PiecesBetween, IndexFrom;
    NoMatch("a-b", "@a");
    NoMatch("a-b", "@b");
    NoMatch("-b", "a");
    NoMatch("", "b");
    TwoPieces("", "-b", "a");
    assert "" + "a" + "-b" == "a-b" && "a-" + "b" + "" == "a-b";
    DiffersNowhereStarts("a-b", 0, "b");
    DiffersNowhereStarts("a-b", 1, "b");
    TwoPieces("a-", "", "b");
    assert StartsAt("@a", 1, "a") && StartsAt("@b", 1, "b");
  }

  lemma NoMatch(text: string, form: string)
    requires form != "" && forall j | 0 <= j <= |text| :: Differs(text, j, form)
    ensures PiecesBetween(text, form) == [text] && !Includes(text, form)
  {
    forall j: nat | j <= |text| ensures !StartsAt(text, j, form) {
      DiffersNowhereStarts(text, j, form);
    }
    OnePiece(text, form);
  }

  lemma TwoEditsShareAFile()
    ensures Fits(SCOPED, SCOPING) && forall i | 0 <= i < |SCOPING| :: Usable(SCOPING[i])
    ensures Texts(SCOPED, SCOPING, Standing(SCOPING, 0)) == map["f" := "a-b"]
    ensures AllIn(map["f" := "a-b"], SCOPING, Pending) && ClearBothWays(SCOPED, SCOPING)
    ensures forall k: nat | k < |SCOPING| :: Landed(SCOPED, SCOPING, k)
  {
    hide Render, Between, Clear, Includes, ExactEditState, Standing;
    ScopingForms();
    ScopingStretches();
    ScopingIsClear();
    ScopingIsPending();
  }

  const SHIFTING: seq<Edit> := [Edit("left", "f", "a", "aa", 1), Edit("right", "f", "b", "ca", 1)]

  const SHIFTED: map<string, Cut> := map["f" := Cut(["", "", ""], [1, 0])]

  lemma ShiftingForms()
    ensures Fits(SHIFTED, SHIFTING) && Fits(SHIFTED, Reversed(SHIFTING))
    ensures Standing(SHIFTING, 0) == ["a", "b"] && Standing(SHIFTING, 1) == ["aa", "b"]
    ensures Standing(SHIFTING, 2) == Standing(Reversed(SHIFTING), 0) == ["aa", "ca"]
  {
    assert FitsFile(SHIFTED["f"], SHIFTING, "f");
    ReversedFits(SHIFTED, SHIFTING);
  }

  lemma ShiftingStretches()
    ensures
      var c := SHIFTED["f"];
      && c.Valid(2) && Render(c, ["a", "b"]) == "ba" && Render(c, ["aa", "ca"]) == "caaa"
      && Between(c, 0, ["a", "b"]) == ["b", ""] && Between(c, 1, ["aa", "b"]) == ["", "aa"]
      && Between(c, 0, ["aa", "ca"]) == ["ca", ""]
    ensures Clear(["b", ""], "a") && Clear(["", "aa"], "b")
  {
    hide Between, Render, Clear;
    var c := SHIFTED["f"];
    AtTwoSites(c, ["a", "b"]);
    AtTwoSites(c, ["aa", "b"]);
    AtTwoSites(c, ["aa", "ca"]);
    assert "" + "aa" + "" == "aa" && "" + "b" + "" == "b" && "" + "ca" + "" == "ca";
    ClearOfTwo("b", "", "a");
    ClearOfTwo("", "aa", "b");
  }

  /**
   A run that restores its file without hitting its sites: "ba" becomes "caaa", and on the way back the first "aa" is
   not the one that was written. So for a shared file clear texts are enough to come back, and not needed.
   */
  lemma RestoredByAccident()
    ensures Fits(SHIFTED, SHIFTING) && Texts(SHIFTED, SHIFTING, Standing(SHIFTING, 0)) == map["f" := "ba"]
    ensures AllClear(SHIFTED, SHIFTING, 2) && !ClearBothWays(SHIFTED, SHIFTING)
    ensures AllReadable(map["f" := "ba"], SHIFTING) && Written(map["f" := "ba"], SHIFTING) == map["f" := "caaa"]
    ensures AllReadable(map["f" := "caaa"], Reversed(SHIFTING))
    ensures Written(map["f" := "caaa"], Reversed(SHIFTING)) == map["f" := "ba"]
  {
    hide Render, Between, Clear, Written, Applying, Standing;
    ShiftingForms();
    ShiftingStretches();
    RunHitsExactlyWhenClear(SHIFTED, SHIFTING, 2);
    assert SHIFTING[..2] == SHIFTING;
    AccidentOnTheWayBack();
    assert !ClearAt(SHIFTED, Reversed(SHIFTING), 0);
    WrittenTwo(map["f" := "caaa"], Reversed(SHIFTING));
  }

  lemma WrittenTwo(files: map<string, string>, edits: seq<Edit>)
    requires |edits| == 2 && AllReadable(files, edits)
    ensures Readable(files, edits[0]) && Readable(Write(files, edits[0]), edits[1])
    ensures Written(files, edits) == Write(Write(files, edits[0]), edits[1])
  {
    hide Applying;
    WrittenStep(files, edits);
    WrittenStep(Write(files, edits[0]), edits[1..]);
    assert edits[1..][1..] == [];
  }

  lemma AccidentOnTheWayBack()
    ensures Applying("caaa", "aa", "a") == "caa" && Applying("caa", "ca", "b") == "ba"
    ensures !Clear(["ca", ""], "aa")
  {
    hide PiecesBetween, IndexFrom, JoinWith, Includes, StartsAt;
    NoMatch("a", "aa");
    NoMatch("a", "ca");
    DiffersNowhereStarts("caaa", 0, "aa");
    assert "c" + "aa" + "a" == "caaa" && "" + "ca" + "a" == "caa";
    TwoPieces("c", "a", "aa");
    TwoPieces("", "a", "ca");
    JoinOfTwo("c", "a", "a");
    JoinOfTwo("", "a", "b");
    AnEarlierSite();
  }

  lemma AnEarlierSite()
    ensures !Clear(["ca", ""], "aa")
  {
    JoinOfTwo("ca", "", "aa");
    assert StartsAt("ca" + "aa" + "", 1, "aa");
  }

  lemma JoinOfTwo(a: string, b: string, form: string)
    ensures JoinWith([a, b], form) == a + form + b
  {
    assert [a, b][1..] == [b];
  }
}
