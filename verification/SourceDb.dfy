/**
 The inputs of the source database (`crates/base-db/src/lib.rs`) and the change that
 writes them (`crates/base-db/src/change.rs`). Every write to an existing input is a
 new revision; the setters skip writes that would change nothing.
 */
module SourceDb {
  import opened Wrappers
  import opened Bytes

  type FileId = nat
  type RootId = nat
  type Text = seq<byte>

  const FALLBACK_SOURCE_ROOT: RootId := 0xFFFF_FFFF

  datatype SourceRoot = SourceRoot(isLibrary: bool, files: set<FileId>)

  const EMPTY_ROOT := SourceRoot(false, {})

  datatype Db = Db(
    texts: map<FileId, Text>, roots: map<RootId, SourceRoot>, fileRoots: map<FileId, RootId>,
    localRoots: Option<set<RootId>>, revision: nat)

  // ----- specification of the setters

  /** A file with text has a root entry: the fallback root until some root claims it. */
  function WithRootEntry(db: Db, f: FileId): Db {
    if f in db.fileRoots then db
    else
      db.(roots := if FALLBACK_SOURCE_ROOT in db.roots then db.roots else db.roots[FALLBACK_SOURCE_ROOT := EMPTY_ROOT],
          fileRoots := db.fileRoots[f := FALLBACK_SOURCE_ROOT])
  }

  /** One more revision if the input existed with another value. */
  function Bumped<V(==)>(revision: nat, m: map<nat, V>, k: nat, v: V): nat {
    if k in m && m[k] != v then revision + 1 else revision
  }

  function WithText(db: Db, f: FileId, text: Text): Db {
    var db := WithRootEntry(db, f);
    db.(texts := db.texts[f := text], revision := Bumped(db.revision, db.texts, f, text))
  }

  function WithRoot(db: Db, id: RootId, root: SourceRoot): Db {
    db.(roots := db.roots[id := root], revision := Bumped(db.revision, db.roots, id, root))
  }

  function WithFileRoot(db: Db, f: FileId, id: RootId): Db {
    db.(fileRoots := db.fileRoots[f := id], revision := Bumped(db.revision, db.fileRoots, f, id))
  }

  function WithLocalRoots(db: Db, ids: set<RootId>): Db {
    db.(localRoots := Some(ids),
        revision := if db.localRoots.Some? && db.localRoots.value != ids then db.revision + 1 else db.revision)
  }

  /** The inputs, as an object the change writes one by one. */
  class Files {
    var files: map<FileId, Text>
    var sourceRoots: map<RootId, SourceRoot>
    var fileSourceRoots: map<FileId, RootId>
    var localRoots: Option<set<RootId>>
    var revision: nat

    function View(): Db
      reads this
    {
      Db(files, sourceRoots, fileSourceRoots, localRoots, revision)
    }

    constructor ()
      ensures View() == Db(map[], map[], map[], None, 0)
    {
      files, sourceRoots, fileSourceRoots, localRoots, revision := map[], map[], map[], None, 0;
    }

    method EnsureFileSourceRoot(f: FileId)
      modifies this
      ensures View() == WithRootEntry(old(View()), f)
    {
      if f in fileSourceRoots {
        return;
      }
      if FALLBACK_SOURCE_ROOT !in sourceRoots {
        sourceRoots := sourceRoots[FALLBACK_SOURCE_ROOT := EMPTY_ROOT];
      }
      fileSourceRoots := fileSourceRoots[f := FALLBACK_SOURCE_ROOT];
    }

    method SetFileText(f: FileId, text: Text)
      modifies this
      ensures View() == WithText(old(View()), f, text)
    {
      EnsureFileSourceRoot(f);
      if f in files {
        if files[f] == text {
          assert files[f := text] == files;
          return;
        }
        revision := revision + 1;
      }
      files := files[f := text];
    }

    method SetSourceRoot(id: RootId, root: SourceRoot)
      modifies this
      ensures View() == WithRoot(old(View()), id, root)
    {
      if id in sourceRoots {
        if sourceRoots[id] == root {
          assert sourceRoots[id := root] == sourceRoots;
          return;
        }
        revision := revision + 1;
      }
      sourceRoots := sourceRoots[id := root];
    }

    method SetFileSourceRoot(f: FileId, id: RootId)
      modifies this
      ensures View() == WithFileRoot(old(View()), f, id)
    {
      if f in fileSourceRoots {
        if fileSourceRoots[f] == id {
          assert fileSourceRoots[f := id] == fileSourceRoots;
          return;
        }
        revision := revision + 1;
      }
      fileSourceRoots := fileSourceRoots[f := id];
    }

    method SetLocalRoots(ids: set<RootId>)
      modifies this
      ensures View() == WithLocalRoots(old(View()), ids)
    {
      if localRoots.Some? {
        if localRoots.value == ids {
          return;
        }
        revision := revision + 1;
      }
      localRoots := Some(ids);
    }
  }

  // ----- a change

  datatype FileChange = FileChange(roots: Option<seq<SourceRoot>>, filesChanged: seq<(FileId, Option<Text>)>)

  /** The files that had another root. */
  ghost function Moved(db: Db, fs: set<FileId>, id: RootId): set<FileId> {
    set f | f in fs && f in db.fileRoots && db.fileRoots[f] != id
  }

  ghost function Attachments(m: map<FileId, RootId>, fs: set<FileId>, id: RootId): map<FileId, RootId> {
    map f | f in m.Keys + fs :: if f in fs then id else m[f]
  }

  /** Every file of a set gets the root; a revision for each that had another. */
  ghost function Attached(db: Db, fs: set<FileId>, id: RootId): Db {
    db.(fileRoots := Attachments(db.fileRoots, fs, id), revision := db.revision + |Moved(db, fs, id)|)
  }

  ghost function WithRoots(db: Db, roots: seq<SourceRoot>): Db {
    if roots == [] then db
    else
      var n := |roots| - 1;
      WithRoot(Attached(WithRoots(db, roots[..n]), roots[n].files, n), n, roots[n])
  }

  function TextOf(text: Option<Text>): Text {
    if text.Some? then text.value else []
  }

  ghost function WithTexts(db: Db, changed: seq<(FileId, Option<Text>)>): Db {
    if changed == [] then db
    else
      var n := |changed| - 1;
      WithText(WithTexts(db, changed[..n]), changed[n].0, TextOf(changed[n].1))
  }

  function RootIds(n: nat): (ids: set<RootId>)
    ensures forall id: nat :: id in ids <==> id < n
  {
    if n == 0 then {} else RootIds(n - 1) + {n - 1}
  }

  ghost function Applied(db: Db, change: FileChange): Db {
    WithTexts(
      if change.roots.Some? then WithLocalRoots(WithRoots(db, change.roots.value), RootIds(|change.roots.value|)) else db,
      change.filesChanged)
  }

  lemma AttachOneMore(db: Db, done: set<FileId>, f: FileId, id: RootId)
    requires f !in done
    ensures Attached(db, done + {f}, id) == WithFileRoot(Attached(db, done, id), f, id)
  {
    var moved := Moved(db, done, id);
    assert Moved(db, done + {f}, id) == if f in db.fileRoots && db.fileRoots[f] != id then moved + {f} else moved;
    assert Attachments(db.fileRoots, done + {f}, id) == Attachments(db.fileRoots, done, id)[f := id];
  }

  lemma AttachNone(db: Db, id: RootId)
    ensures Attached(db, {}, id) == db
  {
    assert Moved(db, {}, id) == {};
    assert Attachments(db.fileRoots, {}, id) == db.fileRoots;
  }

  method AttachFiles(db: Files, fs: set<FileId>, id: RootId)
    modifies db
    ensures db.View() == Attached(old(db.View()), fs, id)
  {
    var remaining := fs;
    ghost var start, done: set<FileId> := db.View(), {};
    AttachNone(start, id);
    while remaining != {}
      invariant forall f :: f in fs <==> f in done || f in remaining
      invariant done !! remaining
      invariant db.View() == Attached(start, done, id)
      decreases remaining
    {
      var f :| f in remaining;
      AttachOneMore(start, done, f, id);
      db.SetFileSourceRoot(f, id);
      remaining, done := remaining - {f}, done + {f};
    }
    assert done == fs;
  }

  lemma OneMoreRoot(db: Db, roots: seq<SourceRoot>, n: nat)
    requires n < |roots|
    ensures WithRoots(db, roots[..n + 1])
         == WithRoot(Attached(WithRoots(db, roots[..n]), roots[n].files, n), n, roots[n])
  {
    assert roots[..n + 1][..n] == roots[..n];
  }

  method SetRoots(db: Files, roots: seq<SourceRoot>)
    modifies db
    ensures db.View() == WithLocalRoots(WithRoots(old(db.View()), roots), RootIds(|roots|))
  {
    var local: set<RootId> := {};
    ghost var start := db.View();
    for idx := 0 to |roots|
      invariant local == RootIds(idx) && db.View() == WithRoots(start, roots[..idx])
    {
      local := local + {idx};
      OneMoreRoot(start, roots, idx);
      AttachFiles(db, roots[idx].files, idx);
      db.SetSourceRoot(idx, roots[idx]);
    }
    assert roots[..|roots|] == roots;
    db.SetLocalRoots(local);
  }

  /** Roots first, then texts; a removed file keeps its input, emptied. */
  method Apply(change: FileChange, db: Files)
    modifies db
    ensures db.View() == Applied(old(db.View()), change)
  {
    if change.roots.Some? {
      SetRoots(db, change.roots.value);
    }
    ghost var start := db.View();
    for k := 0 to |change.filesChanged|
      invariant db.View() == WithTexts(start, change.filesChanged[..k])
    {
      assert change.filesChanged[..k + 1][..k] == change.filesChanged[..k];
      db.SetFileText(change.filesChanged[k].0, TextOf(change.filesChanged[k].1));
    }
    assert change.filesChanged[..|change.filesChanged|] == change.filesChanged;
  }

  // ----- what a change leaves behind

  /** Every file holding text has a root entry, and every entry names a root that exists. */
  ghost predicate Total(db: Db) {
    && db.texts.Keys <= db.fileRoots.Keys
    && forall f | f in db.fileRoots :: db.fileRoots[f] in db.roots
  }

  /** The last root that lists a file. */
  ghost function LastRoot(roots: seq<SourceRoot>, f: FileId): Option<nat> {
    if roots == [] then None
    else if f in roots[|roots| - 1].files then Some(|roots| - 1)
    else LastRoot(roots[..|roots| - 1], f)
  }

  /** A file is attached to the last root that lists it, and keeps its entry if none does. */
  lemma {:induction false} FileRootAfter(db: Db, roots: seq<SourceRoot>, f: FileId)
    ensures var after, last := WithRoots(db, roots).fileRoots, LastRoot(roots, f);
      && (f in after <==> f in db.fileRoots || last.Some?)
      && (f in after ==> after[f] == if last.Some? then last.value else db.fileRoots[f])
  {
    if roots != [] {
      FileRootAfter(db, roots[..|roots| - 1], f);
    }
  }

  lemma {:induction false} RootAfter(db: Db, roots: seq<SourceRoot>, id: RootId)
    ensures var after := WithRoots(db, roots).roots;
      && (id in after <==> id in db.roots || id < |roots|)
      && (id in after ==> after[id] == if id < |roots| then roots[id] else db.roots[id])
  {
    if roots != [] {
      RootAfter(db, roots[..|roots| - 1], id);
    }
  }

  lemma {:induction false} RootsLeaveTexts(db: Db, roots: seq<SourceRoot>)
    ensures var after := WithRoots(db, roots);
      after.texts == db.texts && after.localRoots == db.localRoots && after.revision >= db.revision
  {
    if roots != [] {
      RootsLeaveTexts(db, roots[..|roots| - 1]);
    }
  }

  /** What a change says about a file: the last text it carries. */
  ghost function LastText(changed: seq<(FileId, Option<Text>)>, f: FileId): Option<Text> {
    if changed == [] then None
    else if changed[|changed| - 1].0 == f then Some(TextOf(changed[|changed| - 1].1))
    else LastText(changed[..|changed| - 1], f)
  }

  /** The text is the last one the change carries; a file new to the database starts in the fallback root. */
  lemma {:induction false} TextAfter(db: Db, changed: seq<(FileId, Option<Text>)>, f: FileId)
    ensures var after, last := WithTexts(db, changed), LastText(changed, f);
      && (f in after.texts <==> f in db.texts || last.Some?)
      && (f in after.texts ==> after.texts[f] == if last.Some? then last.value else db.texts[f])
      && (f in after.fileRoots <==> f in db.fileRoots || last.Some?)
      && (f in after.fileRoots ==> after.fileRoots[f] == if f in db.fileRoots then db.fileRoots[f] else FALLBACK_SOURCE_ROOT)
  {
    if changed != [] {
      TextAfter(db, changed[..|changed| - 1], f);
    }
  }

  /** Texts touch no root but the fallback, which they create when it is missing. */
  lemma {:induction false} TextsLeaveRoots(db: Db, changed: seq<(FileId, Option<Text>)>, id: RootId)
    ensures var after := WithTexts(db, changed);
      && (id in db.roots ==> id in after.roots && after.roots[id] == db.roots[id])
      && (id in after.roots && id !in db.roots ==> id == FALLBACK_SOURCE_ROOT)
      && after.localRoots == db.localRoots && after.revision >= db.revision
  {
    if changed != [] {
      TextsLeaveRoots(db, changed[..|changed| - 1], id);
    }
  }

  // ----- the entries stay total

  lemma {:induction false} TextsStayTotal(db: Db, changed: seq<(FileId, Option<Text>)>)
    requires Total(db)
    ensures Total(WithTexts(db, changed))
  {
    if changed != [] {
      TextsStayTotal(db, changed[..|changed| - 1]);
    }
  }

  lemma {:induction false} RootsStayTotal(db: Db, roots: seq<SourceRoot>)
    requires Total(db)
    ensures Total(WithRoots(db, roots))
  {
    if roots != [] {
      RootsStayTotal(db, roots[..|roots| - 1]);
    }
  }

  /** Every change keeps it: a file with text has a root entry, and the entry names an existing root. */
  lemma ChangesStayTotal(db: Db, change: FileChange)
    requires Total(db)
    ensures Total(Applied(db, change))
  {
    if change.roots.Some? {
      RootsStayTotal(db, change.roots.value);
      TextsStayTotal(WithLocalRoots(WithRoots(db, change.roots.value), RootIds(|change.roots.value|)), change.filesChanged);
    } else {
      TextsStayTotal(db, change.filesChanged);
    }
  }

  lemma {:induction false} TextsLeaveLocalRoots(db: Db, changed: seq<(FileId, Option<Text>)>)
    ensures WithTexts(db, changed).localRoots == db.localRoots
  {
    if changed != [] {
      TextsLeaveLocalRoots(db, changed[..|changed| - 1]);
    }
  }

  /** The local roots are the ids of the roots a change sets, counted from zero. */
  lemma LocalRootsAfter(db: Db, change: FileChange)
    ensures var after := Applied(db, change).localRoots;
      && (change.roots.None? ==> after == db.localRoots)
      && (change.roots.Some? ==> after.Some? && forall id: RootId :: id in after.value <==> id < |change.roots.value|)
  {
    if change.roots.Some? {
      TextsLeaveLocalRoots(
        WithLocalRoots(WithRoots(db, change.roots.value), RootIds(|change.roots.value|)), change.filesChanged);
    } else {
      TextsLeaveLocalRoots(db, change.filesChanged);
    }
  }
}
