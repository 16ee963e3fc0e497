/**
 How many revisions a change costs. Every revision invalidates what was computed
 from the inputs, so a write that changes nothing must not make one.
 */
module Revisions {
  import opened Wrappers
  import opened SourceDb

  lemma {:induction false} LastRootMeans(roots: seq<SourceRoot>, f: FileId)
    ensures var last := LastRoot(roots, f);
      && (last.None? <==> forall i | 0 <= i < |roots| :: f !in roots[i].files)
      && (last.Some? ==>
            && last.value < |roots| && f in roots[last.value].files
            && forall i | last.value < i < |roots| :: f !in roots[i].files)
  {
    if roots != [] {
      LastRootMeans(roots[..|roots| - 1], f);
    }
  }

  /** No file lies in two of the roots. */
  ghost predicate Disjoint(roots: seq<SourceRoot>) {
    forall i, j | 0 <= i < j < |roots| :: roots[i].files !! roots[j].files
  }

  /** Writing root `i`, after those before it, changes no input there was. */
  ghost predicate QuietAt(db: Db, roots: seq<SourceRoot>, i: nat)
    requires i < |roots|
  {
    var d := WithRoots(db, roots[..i]);
    Moved(d, roots[i].files, i) == {} && (i in d.roots ==> d.roots[i] == roots[i])
  }

  lemma {:induction false} NoRevisionIff(db: Db, roots: seq<SourceRoot>)
    ensures WithRoots(db, roots).revision == db.revision <==> forall i | 0 <= i < |roots| :: QuietAt(db, roots, i)
  {
    if roots != [] {
      var n := |roots| - 1;
      NoRevisionIff(db, roots[..n]);
      RootsLeaveTexts(db, roots[..n]);
      forall i | 0 <= i < n ensures QuietAt(db, roots[..n], i) <==> QuietAt(db, roots, i) {
        assert roots[..n][..i] == roots[..i];
      }
      var d := WithRoots(db, roots[..n]);
      var moved := Moved(d, roots[n].files, n);
      assert moved == {} <==> |moved| == 0;
      assert WithRoots(db, roots).revision == d.revision <==> QuietAt(db, roots, n);
      assert (forall i | 0 <= i < n :: QuietAt(db, roots[..n], i)) <==> (forall i | 0 <= i < n :: QuietAt(db, roots, i));
    }
  }

  /** Once the roots are in place, writing one again is quiet exactly when it shares no file with another. */
  lemma QuietAgainIff(db: Db, roots: seq<SourceRoot>, i: nat)
    requires i < |roots|
    ensures QuietAt(WithRoots(db, roots), roots, i) <==>
      forall j | 0 <= j < |roots| && j != i :: roots[i].files !! roots[j].files
  {
    var after := WithRoots(db, roots);
    var d := WithRoots(after, roots[..i]);
    RootAfter(db, roots, i);
    RootAfter(after, roots[..i], i);
    forall f | f in roots[i].files
      ensures f in Moved(d, roots[i].files, i) <==> exists j :: 0 <= j < |roots| && j != i && f in roots[j].files
    {
      FileRootAfter(db, roots, f);
      FileRootAfter(after, roots[..i], f);
      LastRootMeans(roots, f);
      LastRootMeans(roots[..i], f);
      forall j | 0 <= j < i ensures roots[..i][j] == roots[j] {}
    }
    if Moved(d, roots[i].files, i) == {} {
      forall j, f | 0 <= j < |roots| && j != i && f in roots[i].files ensures f !in roots[j].files {
        assert f !in Moved(d, roots[i].files, i);
      }
    }
  }

  /** Setting the same roots again makes no revision exactly when no file lies in two of them. */
  lemma RootsAgainIff(db: Db, roots: seq<SourceRoot>)
    ensures WithRoots(WithRoots(db, roots), roots).revision == WithRoots(db, roots).revision <==> Disjoint(roots)
  {
    var after := WithRoots(db, roots);
    NoRevisionIff(after, roots);
    forall i | 0 <= i < |roots|
      ensures QuietAt(after, roots, i) <==> forall j | 0 <= j < |roots| && j != i :: roots[i].files !! roots[j].files
    {
      QuietAgainIff(db, roots, i);
    }
  }

  // ----- texts

  /** Every file is reported once. */
  ghost predicate Distinct(changed: seq<(FileId, Option<Text>)>) {
    forall j, k | 0 <= j < k < |changed| :: changed[j].0 != changed[k].0
  }

  /** The reported files that existed with another text. */
  function Edits(db: Db, changed: seq<(FileId, Option<Text>)>): nat {
    if changed == [] then 0
    else
      var (f, text) := changed[|changed| - 1];
      Edits(db, changed[..|changed| - 1]) + if f in db.texts && db.texts[f] != TextOf(text) then 1 else 0
  }

  lemma {:induction false} Unreported(changed: seq<(FileId, Option<Text>)>, f: FileId)
    requires forall k | 0 <= k < |changed| :: changed[k].0 != f
    ensures LastText(changed, f) == None
  {
    if changed != [] {
      Unreported(changed[..|changed| - 1], f);
    }
  }

  /** One revision for each text that really changed, and none else. */
  lemma {:induction false} OneRevisionPerEdit(db: Db, changed: seq<(FileId, Option<Text>)>)
    requires Distinct(changed)
    ensures WithTexts(db, changed).revision == db.revision + Edits(db, changed)
  {
    if changed != [] {
      var n := |changed| - 1;
      OneRevisionPerEdit(db, changed[..n]);
      Unreported(changed[..n], changed[n].0);
      TextAfter(db, changed[..n], changed[n].0);
    }
  }
}
