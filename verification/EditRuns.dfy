/** A run over all exact edits: it judges every edit before it writes anything. */
module EditRuns {
  import opened Wrappers
  import opened ExactEdits

  // ---- A run over all edits ----------------------------------------------------------------------------------------

  datatype Edit = Edit(id: string, file: string, find: string, replace: string, count: int)

  function Oriented(e: Edit, reverse: bool): Edit {
    if reverse then e.(find := e.replace, replace := e.find) else e
  }

  function StateIn(files: map<string, string>, e: Edit): EditState
    requires e.file in files
  {
    ExactEditState(files[e.file], e.find, e.replace, e.count)
  }

  predicate AllReadable(files: map<string, string>, edits: seq<Edit>) {
    forall i | 0 <= i < |edits| :: edits[i].file in files
  }

  /** The edits in a given state, in order. */
  function InState(files: map<string, string>, edits: seq<Edit>, state: EditState): seq<Edit>
    requires AllReadable(files, edits)
    decreases edits
  {
    if edits == [] then []
    else
      assert edits[0].file in files;
      (if StateIn(files, edits[0]) == state then [edits[0]] else []) + InState(files, edits[1..], state)
  }

  /** Writes the edits one after another, each on the text the ones before it left. */
  function Written(files: map<string, string>, edits: seq<Edit>): map<string, string>
    requires AllReadable(files, edits)
    decreases edits
  {
    if edits == [] then files
    else
      assert edits[0].file in files;
      var e := edits[0];
      Written(files[e.file := Applying(files[e.file], e.find, e.replace)], edits[1..])
  }

  lemma {:induction false} InStateOfMore(files: map<string, string>, edits: seq<Edit>, k: nat, state: EditState)
    requires AllReadable(files, edits) && k < |edits|
    ensures AllReadable(files, edits[..k]) && AllReadable(files, edits[..k + 1])
    ensures InState(files, edits[..k + 1], state)
            == InState(files, edits[..k], state) + (if StateIn(files, edits[k]) == state then [edits[k]] else [])
    decreases k
  {
    if k > 0 {
      hide StateIn;
      assert edits[..k + 1][1..] == edits[1..][..k] && edits[..k][1..] == edits[1..][..k - 1];
      assert edits[1..][k - 1] == edits[k];
      InStateOfMore(files, edits[1..], k - 1, state);
    }
  }

  lemma {:induction false} WrittenOneMore(files: map<string, string>, edits: seq<Edit>, k: nat)
    requires AllReadable(files, edits) && k < |edits|
    ensures
      var e := edits[k];
      var before := Written(files, edits[..k]);
      && e.file in before
      && Written(files, edits[..k + 1]) == before[e.file := Applying(before[e.file], e.find, e.replace)]
    decreases k
  {
    if k > 0 {
      hide Applying;
      var e := edits[0];
      var next := files[e.file := Applying(files[e.file], e.find, e.replace)];
      assert edits[..k + 1][1..] == edits[1..][..k] && edits[..k][1..] == edits[1..][..k - 1];
      assert edits[1..][k - 1] == edits[k];
      WrittenOneMore(next, edits[1..], k - 1);
    }
  }

  /** The edits with their two forms exchanged. */
  function Swapped(edits: seq<Edit>): seq<Edit> {
    seq(|edits|, i requires 0 <= i < |edits| =>
          Edit(edits[i].id, edits[i].file, edits[i].replace, edits[i].find, edits[i].count))
  }

  /** Every edit is judged before anything is written: one invalid edit, and no file is touched. */
  method ApplyAll(files: map<string, string>, edits: seq<Edit>, reverse: bool)
    returns (after: map<string, string>, failures: seq<Edit>)
    requires AllReadable(files, edits)
    ensures
      var run := if reverse then Swapped(edits) else edits;
      && AllReadable(files, run)
      && failures == InState(files, run, Invalid)
      && AllReadable(files, InState(files, run, Pending))
      && after == (if failures != [] then files else Written(files, InState(files, run, Pending)))
  {
    hide StateIn, Applying;
    var oriented := seq(|edits|, i requires 0 <= i < |edits| => Oriented(edits[i], reverse));
    assert oriented == if reverse then Swapped(edits) else edits;
    var planned: seq<Edit> := [];
    failures := [];
    for k := 0 to |oriented|
      invariant failures == InState(files, oriented[..k], Invalid)
      invariant planned == InState(files, oriented[..k], Pending)
      invariant AllReadable(files, planned)
    {
      var state := StateIn(files, oriented[k]);
      InStateOfMore(files, oriented, k, Invalid);
      InStateOfMore(files, oriented, k, Pending);
      if state == Invalid {
        failures := failures + [oriented[k]];
      } else if state == Pending {
        planned := planned + [oriented[k]];
      }
    }
    assert oriented[..|oriented|] == oriented;
    after := files;
    if failures != [] {
      return;
    }
    for k := 0 to |planned|
      invariant after == Written(files, planned[..k])
    {
      WrittenOneMore(files, planned, k);
      var e := planned[k];
      after := after[e.file := Applying(after[e.file], e.find, e.replace)];
    }
    assert planned[..|planned|] == planned;
  }

  // ---- What a run leaves behind ------------------------------------------------------------------------------------

  /** Proper edits: two different forms, and at least one occurrence. */
  predicate Usable(e: Edit) {
    e.find != "" && e.replace != "" && e.find != e.replace && e.count >= 1
  }

  /** The condition under which a pending edit lands and can be undone. */
  ghost predicate Undoable(text: string, e: Edit)
    requires Usable(e)
  {
    && Clear(Split(text, e.find), e.replace)
    && (Includes(e.replace, e.find) || !Includes(Applying(text, e.find, e.replace), e.find))
  }

  predicate Readable(files: map<string, string>, e: Edit) {
    e.file in files
  }

  /** The files after one write. */
  function Write(files: map<string, string>, e: Edit): map<string, string>
    requires Readable(files, e)
  {
    files[e.file := Applying(files[e.file], e.find, e.replace)]
  }

  function Reversed(edits: seq<Edit>): (back: seq<Edit>)
    ensures back == Swapped(edits)
  {
    seq(|edits|, i requires 0 <= i < |edits| => Oriented(edits[i], true))
  }

  lemma ReversedTail(edits: seq<Edit>)
    requires edits != []
    ensures Reversed(edits)[0] == Oriented(edits[0], true) && Reversed(edits)[1..] == Reversed(edits[1..])
  {}

  lemma {:induction false} WrittenKeepsFiles(files: map<string, string>, edits: seq<Edit>)
    requires AllReadable(files, edits)
    ensures Written(files, edits).Keys == files.Keys
    ensures forall f | f in files && (forall i | 0 <= i < |edits| :: edits[i].file != f) ::
              Written(files, edits)[f] == files[f]
    decreases edits
  {
    if edits != [] {
      assert Readable(files, edits[0]);
      hide Applying;
      WrittenKeepsFiles(Write(files, edits[0]), edits[1..]);
    }
  }

  lemma WrittenStep(files: map<string, string>, edits: seq<Edit>)
    requires edits != [] && AllReadable(files, edits)
    ensures Readable(files, edits[0]) && AllReadable(Write(files, edits[0]), edits[1..])
    ensures Written(files, edits) == Written(Write(files, edits[0]), edits[1..])
  {
    assert Readable(files, edits[0]);
  }

  // ---- Edits alone in their file -----------------------------------------------------------------------------------

  predicate Alone(edits: seq<Edit>, i: nat)
    requires i < |edits|
  {
    forall j | 0 <= j < |edits| && j != i :: edits[j].file != edits[i].file
  }

  /** The file of a lone edit is written once, on its original text. */
  lemma {:induction false} WrittenOnce(files: map<string, string>, edits: seq<Edit>, i: nat)
    requires AllReadable(files, edits) && i < |edits| && Alone(edits, i)
    ensures
      var e := edits[i];
      && e.file in files && e.file in Written(files, edits)
      && Written(files, edits)[e.file] == Applying(files[e.file], e.find, e.replace)
    decreases edits
  {
    hide Applying;
    WrittenStep(files, edits);
    WrittenKeepsFiles(Write(files, edits[0]), edits[1..]);
    if i > 0 {
      WrittenOnce(Write(files, edits[0]), edits[1..], i - 1);
    }
  }

  ghost predicate AllIn(files: map<string, string>, edits: seq<Edit>, state: EditState) {
    forall i | 0 <= i < |edits| :: edits[i].file in files && StateIn(files, edits[i]) == state
  }

  /**
   A pending edit that shares its file with no other: after the run it is judged applied and the reverse run restores
   its file, if and only if it meets the condition under which a single edit can be undone.
   */
  lemma LoneEditIsReversibleExactlyWhen(files: map<string, string>, edits: seq<Edit>, i: nat)
    requires AllReadable(files, edits) && i < |edits| && Alone(edits, i) && Usable(edits[i])
    requires edits[i].file in files && StateIn(files, edits[i]) == Pending
    ensures AllReadable(Written(files, edits), Reversed(edits))
    ensures
      var e, after := edits[i], Written(files, edits);
      var back := Written(after, Reversed(edits));
      && e.file in after && e.file in back
      && ((StateIn(after, e) == Applied && back[e.file] == files[e.file]) <==> Undoable(files[e.file], e))
  {
    hide Applying, Written, ExactEditState, Clear, Split, Includes;
    var e, after := edits[i], Written(files, edits);
    WrittenKeepsFiles(files, edits);
    WrittenOnce(files, edits, i);
    WrittenOnce(after, Reversed(edits), i);
    PendingEditsAreReversible(files[e.file], e.find, e.replace, e.count);
  }

  // ---- After a run -------------------------------------------------------------------------------------------------

  lemma AppliedIsPendingInReverse(files: map<string, string>, e: Edit)
    requires e.file in files && Usable(e) && StateIn(files, e) == Applied
    ensures StateIn(files, Oriented(e, true)) == Pending
  {
    hide ExactEditState;
    DirectionsAreOpposite(files[e.file], e.find, e.replace, e.count);
  }

  /** Once every edit is applied, a second run plans and rejects nothing, and the reverse run plans every edit. */
  lemma {:induction false} NothingLeftToApply(files: map<string, string>, edits: seq<Edit>)
    requires AllReadable(files, edits) && AllIn(files, edits, Applied)
    requires forall i | 0 <= i < |edits| :: Usable(edits[i])
    ensures InState(files, edits, Pending) == [] && InState(files, edits, Invalid) == []
    ensures AllReadable(files, Reversed(edits))
    ensures InState(files, Reversed(edits), Pending) == Reversed(edits)
              && InState(files, Reversed(edits), Invalid) == []
    decreases edits
  {
    if edits != [] {
      hide StateIn, Usable, Oriented;
      var e := edits[0];
      assert Usable(e) && StateIn(files, e) == Applied;
      AppliedIsPendingInReverse(files, e);
      ReversedTail(edits);
      SameFile(e);
      NothingLeftToApply(files, edits[1..]);
      assert Reversed(edits) == [Reversed(edits)[0]] + Reversed(edits)[1..];
    }
  }

  lemma SameFile(e: Edit)
    ensures Oriented(e, true).file == e.file
  {}
}
