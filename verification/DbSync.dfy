/**
 Keeping the database in step with the virtual file system, after `process_changes`,
 `partition_source_roots` and `apply_loaded_graph` of
 `crates/caffeine-ls/src/main_loop.rs`: texts follow the reported changes, roots are
 rebuilt only when files came or went.
 */
module DbSync {
  import opened Wrappers
  import opened Bytes
  import opened LineEndings
  import opened SourceDb

  datatype RootKind = SourceSet | Library(id: nat) | DecompiledLibrary(id: nat)

  /** One file set per root, and the catch-all after them: `owner` says which one a file falls in. */
  datatype Config = Config(kinds: seq<RootKind>, owner: FileId -> nat) {
    ghost predicate Ok() {
      forall f :: owner(f) <= |kinds|
    }
  }

  datatype VfsChange = Create(contents: seq<byte>) | Modify(contents: seq<byte>) | Delete

  type Contents = map<FileId, seq<byte>>
  type Changes = seq<(FileId, VfsChange)>

  // ----- specification

  /** The text of a file: its contents with line endings normalised, nothing if they are not UTF-8. */
  function TextFor(utf8: seq<byte> -> bool, contents: seq<byte>): Text {
    if utf8(contents) then Normalized(contents) else []
  }

  function NewText(utf8: seq<byte> -> bool, change: VfsChange): Option<Text> {
    if !change.Delete? && utf8(change.contents) then Some(Normalized(change.contents)) else None
  }

  function TextsFor(utf8: seq<byte> -> bool, changes: Changes): seq<(FileId, Option<Text>)> {
    seq(|changes|, k requires 0 <= k < |changes| => (changes[k].0, NewText(utf8, changes[k].1)))
  }

  predicate RootsChanged(changes: Changes) {
    exists k :: 0 <= k < |changes| && !changes[k].1.Modify?
  }

  function FileSet(config: Config, files: set<FileId>, i: nat): set<FileId> {
    set f | f in files && config.owner(f) == i
  }

  /** A root for each configured file set, then the detached root. */
  function Partition(config: Config, files: set<FileId>): seq<SourceRoot> {
    seq(|config.kinds|, i requires 0 <= i < |config.kinds| =>
      SourceRoot(!config.kinds[i].SourceSet?, FileSet(config, files, i)))
    + [SourceRoot(false, FileSet(config, files, |config.kinds|))]
  }

  /** What the line-ending table says after the changes. */
  function EndingsAfter(utf8: seq<byte> -> bool, endings: map<FileId, Endings>, changes: Changes): map<FileId, Endings> {
    if changes == [] then endings
    else
      var (f, change) := changes[|changes| - 1];
      var endings := EndingsAfter(utf8, endings, changes[..|changes| - 1]);
      if change.Delete? then endings - {f}
      else if utf8(change.contents) then endings[f := if HasCrlf(change.contents) then Dos else Unix]
      else endings
  }

  /** The change that is applied: roots only if files came or went and there is a configuration. */
  function ChangeFor(utf8: seq<byte> -> bool, config: Option<Config>, files: set<FileId>, changes: Changes): FileChange {
    FileChange(
      if RootsChanged(changes) && config.Some? then Some(Partition(config.value, files)) else None,
      TextsFor(utf8, changes))
  }

  // ----- the object

  class Workspace {
    const utf8: seq<byte> -> bool
    const db: Files
    var contents: Contents
    var config: Option<Config>
    var endings: map<FileId, Endings>

    constructor (utf8: seq<byte> -> bool)
      ensures fresh(db) && db.View() == Db(map[], map[], map[], None, 0)
      ensures this.utf8 == utf8 && contents == map[] && config == None && endings == map[]
    {
      this.utf8 := utf8;
      db := new Files();
      contents, config, endings := map[], None, map[];
    }

    method NormalizeText(items: seq<byte>) returns (text: Text, ending: Endings)
      ensures text == Normalized(items) && ending == if HasCrlf(items) then Dos else Unix
    {
      var buf := new byte[|items|](i requires 0 <= i < |items| => items[i]);
      assert buf[..] == items;
      var len, e := Normalize(buf);
      text, ending := buf[..len], e;
    }

    /** One turn's changes, as the file system reports them, go into the database. */
    method ProcessChanges(changes: Changes)
      modifies this`endings, db
      ensures db.View() == Applied(old(db.View()), ChangeFor(utf8, config, contents.Keys, changes))
      ensures endings == EndingsAfter(utf8, old(endings), changes)
    {
      var texts: seq<(FileId, Option<Text>)> := [];
      var rootsChanged := false;
      for k := 0 to |changes|
        invariant texts == TextsFor(utf8, changes[..k]) && rootsChanged == RootsChanged(changes[..k])
        invariant endings == EndingsAfter(utf8, old(endings), changes[..k]) && db.View() == old(db.View())
      {
        assert changes[..k + 1][..k] == changes[..k];
        var file, change := changes[k].0, changes[k].1;
        RootsChangedStep(changes, k);
        if !change.Modify? {
          rootsChanged := true;
        }
        var newText: Option<Text> := None;
        if change.Delete? {
          endings := endings - {file};
        } else if utf8(change.contents) {
          var text, ending := NormalizeText(change.contents);
          endings := endings[file := ending];
          newText := Some(text);
        }
        texts := texts + [(file, newText)];
      }
      assert changes[..|changes|] == changes;
      var roots := if rootsChanged && config.Some? then Some(Partition(config.value, contents.Keys)) else None;
      Apply(FileChange(roots, texts), db);
    }

    /** A loaded project brings its roots and partitions the files there are. */
    method ApplyLoadedGraph(loaded: Config)
      modifies this`config, db
      ensures config == Some(loaded)
      ensures db.View() == Applied(old(db.View()), FileChange(Some(Partition(loaded, contents.Keys)), []))
    {
      config := Some(loaded);
      Apply(FileChange(Some(Partition(loaded, contents.Keys)), []), db);
    }
  }

  lemma RootsChangedStep(changes: Changes, k: nat)
    requires k < |changes|
    ensures RootsChanged(changes[..k + 1]) <==> RootsChanged(changes[..k]) || !changes[k].1.Modify?
  {
    if RootsChanged(changes[..k]) {
      var j :| 0 <= j < k && !changes[..k][j].1.Modify?;
      assert !changes[..k + 1][j].1.Modify?;
    }
    if !changes[k].1.Modify? {
      assert !changes[..k + 1][k].1.Modify?;
    }
    if RootsChanged(changes[..k + 1]) {
      var j :| 0 <= j < k + 1 && !changes[..k + 1][j].1.Modify?;
      assert j < k ==> !changes[..k][j].1.Modify?;
    }
  }

  /** One root for each configured kind, holding the files it owns; all but those of source sets are libraries; the rest is detached. */
  lemma PartitionIs(config: Config, files: set<FileId>)
    ensures var roots, n := Partition(config, files), |config.kinds|;
      && |roots| == n + 1
      && (forall i, f | 0 <= i <= n :: f in roots[i].files <==> f in files && config.owner(f) == i)
      && (forall i | 0 <= i < n :: roots[i].isLibrary <==> config.kinds[i].Library? || config.kinds[i].DecompiledLibrary?)
      && !roots[n].isLibrary
  {}
}
