/**
 Turns of the main loop over the file system and the database: after every turn the
 database is what a rebuild from scratch would make it, for every file alive.
 */
module SyncRuns {
  import opened Wrappers
  import opened Bytes
  import opened LineEndings
  import opened SourceDb
  import opened DbSync
  import opened Revisions

  datatype State = State(contents: Contents, config: Option<Config>, db: Db, endings: map<FileId, Endings>)

  const START := State(map[], None, Db(map[], map[], map[], None, 0), map[])

  /** A turn takes the changes of the file system, or a loaded project. */
  datatype Turn = Edit(now: Contents, changes: Changes) | Load(config: Config)

  /** The last report about a file. */
  ghost function ChangeOf(changes: Changes, f: FileId): Option<VfsChange> {
    if changes == [] then None
    else if changes[|changes| - 1].0 == f then Some(changes[|changes| - 1].1)
    else ChangeOf(changes[..|changes| - 1], f)
  }

  /** What was reported about a file accounts for what happened to it. */
  ghost predicate Tells(change: Option<VfsChange>, f: FileId, before: Contents, now: Contents) {
    match change
    case None => (f in now <==> f in before) && (f in now ==> now[f] == before[f])
    case Some(Create(v)) => f in now && now[f] == v
    case Some(Modify(v)) => f in now && now[f] == v
    case Some(Delete) => f !in now
  }

  ghost predicate Reported(changes: Changes, before: Contents, now: Contents) {
    forall f :: Tells(ChangeOf(changes, f), f, before, now)
  }

  /** Only a file that was there is reported as modified. */
  ghost predicate ModifiesKnown(changes: Changes, before: Contents) {
    forall k | 0 <= k < |changes| && changes[k].1.Modify? :: changes[k].0 in before
  }

  ghost function Apply(utf8: seq<byte> -> bool, s: State, turn: Turn): State {
    match turn
    case Edit(now, changes) =>
      State(now, s.config, Applied(s.db, ChangeFor(utf8, s.config, now.Keys, changes)),
            EndingsAfter(utf8, s.endings, changes))
    case Load(config) =>
      s.(config := Some(config),
         db := Applied(s.db, FileChange(Some(Partition(config, s.contents.Keys)), [])))
  }

  // ----- in step

  /** Texts of the files alive are their normalised contents; what is left of dead files is empty. */
  ghost predicate TextsFollow(utf8: seq<byte> -> bool, s: State) {
    && (forall f | f in s.contents :: f in s.db.texts && s.db.texts[f] == TextFor(utf8, s.contents[f]))
    && (forall f | f in s.db.texts && f !in s.contents :: s.db.texts[f] == [])
  }

  /** Roots are those of a full partition, and each file alive is attached to the one it falls in. */
  ghost predicate RootsFollow(config: Config, files: set<FileId>, db: Db) {
    && (forall i | 0 <= i <= |config.kinds| :: i in db.roots && db.roots[i] == Partition(config, files)[i])
    && (forall f | f in files :: f in db.fileRoots && db.fileRoots[f] == config.owner(f))
  }

  /** Before a project is loaded every file hangs on the fallback root. */
  ghost predicate Unclaimed(db: Db) {
    forall f | f in db.fileRoots :: db.fileRoots[f] == FALLBACK_SOURCE_ROOT
  }

  ghost predicate EndingsFollow(utf8: seq<byte> -> bool, s: State) {
    forall f | f in s.contents && utf8(s.contents[f]) ::
      f in s.endings && (s.endings[f] == Dos <==> HasCrlf(s.contents[f]))
  }

  ghost predicate InStep(utf8: seq<byte> -> bool, s: State) {
    && TextsFollow(utf8, s) && EndingsFollow(utf8, s) && Total(s.db)
    && match s.config
       case Some(config) => RootsFollow(config, s.contents.Keys, s.db)
       case None => Unclaimed(s.db)
  }

  // ----- steps

  lemma {:induction false} LastTextIs(utf8: seq<byte> -> bool, changes: Changes, f: FileId)
    ensures LastText(TextsFor(utf8, changes), f)
         == if ChangeOf(changes, f).Some? then Some(TextOf(NewText(utf8, ChangeOf(changes, f).value))) else None
  {
    if changes != [] {
      var n := |changes| - 1;
      LastTextIs(utf8, changes[..n], f);
      assert TextsFor(utf8, changes)[..n] == TextsFor(utf8, changes[..n]);
    }
  }

  lemma {:induction false} EndingIs(utf8: seq<byte> -> bool, endings: map<FileId, Endings>, changes: Changes, f: FileId)
    requires ChangeOf(changes, f).Some? && !ChangeOf(changes, f).value.Delete? && utf8(ChangeOf(changes, f).value.contents)
    ensures var after := EndingsAfter(utf8, endings, changes);
      f in after && (after[f] == Dos <==> HasCrlf(ChangeOf(changes, f).value.contents))
  {
    if changes[|changes| - 1].0 != f {
      EndingIs(utf8, endings, changes[..|changes| - 1], f);
    }
  }

  lemma {:induction false} EndingStays(utf8: seq<byte> -> bool, endings: map<FileId, Endings>, changes: Changes, f: FileId)
    requires ChangeOf(changes, f).None?
    ensures var after := EndingsAfter(utf8, endings, changes);
      (f in after <==> f in endings) && (f in after ==> after[f] == endings[f])
  {
    if changes != [] {
      EndingStays(utf8, endings, changes[..|changes| - 1], f);
    }
  }

  lemma EndingsStep(utf8: seq<byte> -> bool, s: State, now: Contents, changes: Changes)
    requires EndingsFollow(utf8, s) && Reported(changes, s.contents, now)
    ensures EndingsFollow(utf8, Apply(utf8, s, Edit(now, changes)))
  {
    var s' := Apply(utf8, s, Edit(now, changes));
    forall f | f in now && utf8(now[f]) ensures f in s'.endings && (s'.endings[f] == Dos <==> HasCrlf(now[f])) {
      assert Tells(ChangeOf(changes, f), f, s.contents, now);
      if ChangeOf(changes, f).None? {
        EndingStays(utf8, s.endings, changes, f);
      } else {
        EndingIs(utf8, s.endings, changes, f);
      }
    }
  }

  /** The database a change leaves to its texts: with the new roots in, if it has any. */
  ghost function Rooted(db: Db, roots: Option<seq<SourceRoot>>): Db {
    if roots.Some? then WithLocalRoots(WithRoots(db, roots.value), RootIds(|roots.value|)) else db
  }

  lemma TextsStep(utf8: seq<byte> -> bool, s: State, now: Contents, changes: Changes)
    requires TextsFollow(utf8, s) && Reported(changes, s.contents, now)
    ensures TextsFollow(utf8, Apply(utf8, s, Edit(now, changes)))
  {
    var s' := Apply(utf8, s, Edit(now, changes));
    var roots := ChangeFor(utf8, s.config, now.Keys, changes).roots;
    if roots.Some? {
      RootsLeaveTexts(s.db, roots.value);
    }
    forall f
      ensures f in now ==> f in s'.db.texts && s'.db.texts[f] == TextFor(utf8, now[f])
      ensures f in s'.db.texts && f !in now ==> s'.db.texts[f] == []
    {
      assert Tells(ChangeOf(changes, f), f, s.contents, now);
      TextAfter(Rooted(s.db, roots), TextsFor(utf8, changes), f);
      LastTextIs(utf8, changes, f);
    }
  }

  /** Partitioning puts a file alive in the root that owns it, and no other. */
  lemma OwnerIsLast(config: Config, files: set<FileId>, f: FileId)
    requires config.Ok()
    ensures LastRoot(Partition(config, files), f) == if f in files then Some(config.owner(f)) else None
  {
    var roots := Partition(config, files);
    LastRootMeans(roots, f);
    forall i | 0 <= i < |roots| ensures f in roots[i].files <==> f in files && config.owner(f) == i {}
    assert f in files ==> f in roots[config.owner(f)].files;
  }

  /** Loading the same project again makes no revision: a partition is disjoint. */
  lemma PartitionAgainIsFree(config: Config, files: set<FileId>, db: Db)
    ensures var once := Rooted(db, Some(Partition(config, files)));
      Rooted(once, Some(Partition(config, files))).revision == once.revision
  {
    var roots := Partition(config, files);
    var once := Rooted(db, Some(roots));
    assert Disjoint(roots);
    RootsAgainIff(db, roots);
    var plain := WithRoots(db, roots);
    LocalRootsAside(plain, RootIds(|roots|), roots);
  }

  /** Root ids on the side do not matter to the roots. */
  lemma {:induction false} LocalRootsAside(db: Db, ids: set<RootId>, roots: seq<SourceRoot>)
    ensures var l, r := WithRoots(WithLocalRoots(db, ids), roots), WithRoots(db, roots);
      && l.roots == r.roots && l.fileRoots == r.fileRoots && l.localRoots == Some(ids)
      && l.revision - WithLocalRoots(db, ids).revision == r.revision - db.revision
  {
    if roots != [] {
      LocalRootsAside(db, ids, roots[..|roots| - 1]);
    }
  }

  /** Setting a partition's roots puts the database in step with it. */
  lemma PartitionFollows(config: Config, files: set<FileId>, db: Db, changed: seq<(FileId, Option<Text>)>)
    requires config.Ok()
    ensures RootsFollow(config, files, WithTexts(Rooted(db, Some(Partition(config, files))), changed))
  {
    var roots := Partition(config, files);
    var rooted := Rooted(db, Some(roots));
    var after := WithTexts(rooted, changed);
    forall i | 0 <= i <= |config.kinds| ensures i in after.roots && after.roots[i] == roots[i] {
      RootAfter(db, roots, i);
      TextsLeaveRoots(rooted, changed, i);
    }
    forall f | f in files ensures f in after.fileRoots && after.fileRoots[f] == config.owner(f) {
      OwnerIsLast(config, files, f);
      FileRootAfter(db, roots, f);
      TextAfter(rooted, changed, f);
    }
  }

  /** Without a create or a delete the set of files alive can only have grown by what was misreported. */
  lemma {:induction false} NoRootsChanged(changes: Changes, f: FileId)
    requires !RootsChanged(changes)
    ensures var c := ChangeOf(changes, f); c.Some? ==>
      c.value.Modify? && exists k :: 0 <= k < |changes| && changes[k] == (f, c.value)
  {
    if changes != [] && changes[|changes| - 1].0 != f {
      var n := |changes| - 1;
      assert !RootsChanged(changes[..n]) by {
        RootsChangedStep(changes, n);
        assert changes[..n + 1] == changes;
      }
      NoRootsChanged(changes[..n], f);
    }
  }

  lemma SameFiles(changes: Changes, before: Contents, now: Contents)
    requires Reported(changes, before, now) && ModifiesKnown(changes, before) && !RootsChanged(changes)
    ensures now.Keys == before.Keys
  {
    forall f ensures f in now <==> f in before {
      assert Tells(ChangeOf(changes, f), f, before, now);
      NoRootsChanged(changes, f);
    }
  }

  /** Texts alone move no file that has an entry, and no root but a missing fallback. */
  lemma TextsKeepRoots(config: Config, files: set<FileId>, db: Db, changed: seq<(FileId, Option<Text>)>)
    requires RootsFollow(config, files, db)
    ensures RootsFollow(config, files, WithTexts(db, changed))
  {
    var after := WithTexts(db, changed);
    forall i | 0 <= i <= |config.kinds| ensures i in after.roots && after.roots[i] == db.roots[i] {
      TextsLeaveRoots(db, changed, i);
    }
    forall f | f in files ensures f in after.fileRoots && after.fileRoots[f] == db.fileRoots[f] {
      TextAfter(db, changed, f);
    }
  }

  /**
   With a configuration, the roots after a turn are those of a full rebuild exactly
   when something was reported created or deleted, or no file came or went.
   */
  lemma RootsFollowIff(utf8: seq<byte> -> bool, s: State, now: Contents, changes: Changes)
    requires s.config.Some? && s.config.value.Ok() && RootsFollow(s.config.value, s.contents.Keys, s.db)
    ensures RootsFollow(s.config.value, now.Keys, Apply(utf8, s, Edit(now, changes)).db)
       <==> (exists k :: 0 <= k < |changes| && !changes[k].1.Modify?) || now.Keys == s.contents.Keys
  {
    var config, before := s.config.value, s.contents.Keys;
    var texts := TextsFor(utf8, changes);
    if RootsChanged(changes) {
      PartitionFollows(config, now.Keys, s.db, texts);
    } else {
      TextsKeepRoots(config, before, s.db, texts);
      if now.Keys != before {
        var f :| (f in now.Keys) != (f in before);
        var i := config.owner(f);
        var after := WithTexts(s.db, texts);
        assert (f in Partition(config, now.Keys)[i].files) != (f in Partition(config, before)[i].files);
        assert after.roots[i] == Partition(config, before)[i];
      }
    }
  }

  lemma UnclaimedStep(utf8: seq<byte> -> bool, s: State, now: Contents, changes: Changes)
    requires s.config.None? && Unclaimed(s.db)
    ensures Unclaimed(Apply(utf8, s, Edit(now, changes)).db)
  {
    var after := Apply(utf8, s, Edit(now, changes)).db;
    forall f | f in after.fileRoots ensures after.fileRoots[f] == FALLBACK_SOURCE_ROOT {
      TextAfter(s.db, TextsFor(utf8, changes), f);
    }
  }

  /** The turns the main loop can see: the file system accounts for what happened, a project's roots cover every file. */
  ghost predicate Enabled(s: State, turn: Turn) {
    match turn
    case Edit(now, changes) => Reported(changes, s.contents, now) && ModifiesKnown(changes, s.contents)
    case Load(config) => config.Ok()
  }

  lemma EditKeeps(utf8: seq<byte> -> bool, s: State, now: Contents, changes: Changes)
    requires InStep(utf8, s) && Enabled(s, Edit(now, changes)) && (s.config.Some? ==> s.config.value.Ok())
    ensures InStep(utf8, Apply(utf8, s, Edit(now, changes)))
  {
    TextsStep(utf8, s, now, changes);
    EndingsStep(utf8, s, now, changes);
    ChangesStayTotal(s.db, ChangeFor(utf8, s.config, now.Keys, changes));
    if s.config.Some? {
      RootsFollowIff(utf8, s, now, changes);
      if !RootsChanged(changes) {
        SameFiles(changes, s.contents, now);
      }
    } else {
      UnclaimedStep(utf8, s, now, changes);
    }
  }

  lemma LoadKeeps(utf8: seq<byte> -> bool, s: State, config: Config)
    requires InStep(utf8, s) && config.Ok()
    ensures InStep(utf8, Apply(utf8, s, Load(config)))
  {
    var roots := Partition(config, s.contents.Keys);
    ChangesStayTotal(s.db, FileChange(Some(roots), []));
    RootsLeaveTexts(s.db, roots);
    PartitionFollows(config, s.contents.Keys, s.db, []);
  }

  ghost predicate Valid(utf8: seq<byte> -> bool, turns: seq<Turn>)
    decreases |turns|, 0
  {
    turns == []
    || var n := |turns| - 1; Valid(utf8, turns[..n]) && Enabled(After(utf8, turns[..n]), turns[n])
  }

  ghost function After(utf8: seq<byte> -> bool, turns: seq<Turn>): State
    requires Valid(utf8, turns)
    decreases |turns|, 1
  {
    if turns == [] then START else Apply(utf8, After(utf8, turns[..|turns| - 1]), turns[|turns| - 1])
  }

  /** After every turn the database is in step: texts, line endings, roots, and a root entry for every text. */
  lemma {:induction false} EveryTurnIsInStep(utf8: seq<byte> -> bool, turns: seq<Turn>)
    requires Valid(utf8, turns)
    ensures InStep(utf8, After(utf8, turns))
    ensures var config := After(utf8, turns).config; config.Some? ==> config.value.Ok()
  {
    if turns != [] {
      var n := |turns| - 1;
      var s := After(utf8, turns[..n]);
      EveryTurnIsInStep(utf8, turns[..n]);
      match turns[n]
      case Edit(now, changes) => EditKeeps(utf8, s, now, changes);
      case Load(config) => LoadKeeps(utf8, s, config);
    }
  }

  // ----- what a turn costs

  lemma {:induction false} EditsOfSameText(utf8: seq<byte> -> bool, db: Db, changes: Changes)
    requires forall k | 0 <= k < |changes| ::
      changes[k].0 in db.texts && db.texts[changes[k].0] == TextOf(NewText(utf8, changes[k].1))
    ensures Edits(db, TextsFor(utf8, changes)) == 0
  {
    if changes != [] {
      var n := |changes| - 1;
      EditsOfSameText(utf8, db, changes[..n]);
      assert TextsFor(utf8, changes)[..n] == TextsFor(utf8, changes[..n]);
    }
  }

  /**
   A turn that only modifies leaves the roots and every entry alone, and makes one
   revision for each text that differs once normalised.
   */
  lemma ModifyingIsCheap(utf8: seq<byte> -> bool, s: State, now: Contents, changes: Changes)
    requires InStep(utf8, s) && Reported(changes, s.contents, now) && ModifiesKnown(changes, s.contents)
    requires (forall k | 0 <= k < |changes| :: changes[k].1.Modify?) && Distinct(TextsFor(utf8, changes))
    ensures var db := Apply(utf8, s, Edit(now, changes)).db;
      && db.fileRoots == s.db.fileRoots && db.roots == s.db.roots && db.localRoots == s.db.localRoots
      && db.revision == s.db.revision + Edits(s.db, TextsFor(utf8, changes))
  {
    OneRevisionPerEdit(s.db, TextsFor(utf8, changes));
    assert !RootsChanged(changes);
    EntriesSuffice(s.db, TextsFor(utf8, changes));
  }

  /** Files that have an entry get no other. */
  lemma {:induction false} EntriesSuffice(db: Db, changed: seq<(FileId, Option<Text>)>)
    requires forall k | 0 <= k < |changed| :: changed[k].0 in db.fileRoots
    ensures var after := WithTexts(db, changed);
      after.fileRoots == db.fileRoots && after.roots == db.roots && after.localRoots == db.localRoots
  {
    if changed != [] {
      EntriesSuffice(db, changed[..|changed| - 1]);
    }
  }

  /** Only line endings changed: nothing computed from the database is lost. */
  lemma LineEndingsCostNothing(utf8: seq<byte> -> bool, s: State, now: Contents, f: FileId)
    requires InStep(utf8, s) && f in s.contents && f in now && Reported([(f, Modify(now[f]))], s.contents, now)
    requires TextFor(utf8, now[f]) == TextFor(utf8, s.contents[f])
    ensures Apply(utf8, s, Edit(now, [(f, Modify(now[f]))])).db == s.db
  {
    var changes := [(f, Modify(now[f]))];
    ModifyingIsCheap(utf8, s, now, changes);
    EditsOfSameText(utf8, s.db, changes);
    var texts := TextsFor(utf8, changes);
    assert texts[..0] == [] && WithTexts(s.db, texts[..0]) == s.db;
    assert s.db.texts[f := TextOf(NewText(utf8, Modify(now[f])))] == s.db.texts;
  }
}
