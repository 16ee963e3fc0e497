/**
 A library's index over both its lives, after `load_or_build` of
 `crates/hir/src/loader.rs` and `LibraryIndex` of `crates/hir/src/index.rs`: built
 from the archive in one session, loaded from the store in a later one.
 */
module CachedIndex {
  import opened Wrappers
  import opened Stubs
  import opened StringTable
  import opened NameIndexes
  import opened StoreKeys
  import opened StubStore
  import opened Loader
  import History = StoreHistory

  /** Records kept in memory are preferred over the stored ones. */
  datatype LibraryIndex<N(==)> = LibraryIndex(
    id: nat, names: NameIndex<N>, strings: seq<string>, records: seq<DiskRecord>)
  {
    /** The member record at a position; a name is `None` where the resolver would panic. */
    method Record(store: StubStore, session: Interner, idx: nat) returns (r: Option<ClassOrModuleStub<Option<Symbol>>>)
      requires store.Valid() && id < U64 && idx < U32
      ensures r == RecordIn(store.view, id, strings, records, session, idx)
    {
      var disk: Option<DiskRecord>;
      if idx < |records| {
        disk := Some(records[idx]);
      } else {
        disk := store.ReadRecord(id, idx);
      }
      r := if disk.Some? then Some(MapStub(disk.value, Look(Reader(strings, session.intern)))) else None;
    }
  }

  ghost function RecordIn(
      view: View, id: nat, strings: seq<string>, records: seq<DiskRecord>, session: Interner, idx: nat)
    : Option<ClassOrModuleStub<Option<Symbol>>>
  {
    var k := RecordKey(id, idx);
    if idx < |records| then Some(MapStub(records[idx], Look(Reader(strings, session.intern))))
    else if k in view && view[k].RecordPayload? then
      Some(MapStub(view[k].record, Look(Reader(strings, session.intern))))
    else None
  }

  // ----- loading

  function Decoded(session: Interner): string -> Option<Symbol> {
    (s: string) => Some(session.intern(s))
  }

  function DecodedEntries(meta: MetaBlob, session: Interner): seq<ClassEntry<Option<Symbol>>> {
    seq(|meta.entries|, k requires 0 <= k < |meta.entries| =>
      MapEntry(meta.entries[k], Look(Reader(meta.strings, session.intern))))
  }

  function DecodedModules(meta: MetaBlob, session: Interner): seq<ModuleEntry<Option<Symbol>>> {
    seq(|meta.modules|, k requires 0 <= k < |meta.modules| =>
      MapModuleEntry(meta.modules[k], Look(Reader(meta.strings, session.intern))))
  }

  /** The index stands for a meta blob alone: its records stay in the store. */
  ghost predicate LoadedFrom(ix: LibraryIndex<Option<Symbol>>, id: nat, meta: MetaBlob, session: Interner) {
    && ix.id == id && ix.strings == meta.strings && ix.records == []
    && IsIndexOf(ix.names, DecodedEntries(meta, session), DecodedModules(meta, session))
  }

  ghost function StoredMeta(view: View, id: nat): Option<MetaBlob> {
    if MetaKey(id) in view then DecodeMeta(view[MetaKey(id)]) else None
  }

  method DecodeEntries(meta: MetaBlob, session: Interner) returns (entries: seq<ClassEntry<Option<Symbol>>>)
    ensures entries == DecodedEntries(meta, session)
  {
    entries := [];
    for k := 0 to |meta.entries|
      invariant entries == DecodedEntries(meta, session)[..k]
    {
      entries := entries + [MapEntry(meta.entries[k], Look(Reader(meta.strings, session.intern)))];
    }
  }

  method DecodeModules(meta: MetaBlob, session: Interner) returns (modules: seq<ModuleEntry<Option<Symbol>>>)
    ensures modules == DecodedModules(meta, session)
  {
    modules := [];
    for k := 0 to |meta.modules|
      invariant modules == DecodedModules(meta, session)[..k]
    {
      modules := modules + [MapModuleEntry(meta.modules[k], Look(Reader(meta.strings, session.intern)))];
    }
  }

  method LoadFromCache(id: nat, session: Interner, store: StubStore, now: nat)
    returns (r: Option<LibraryIndex<Option<Symbol>>>)
    requires store.Valid() && id < U64
    modifies store
    ensures store.Valid()
    ensures r.Some? <==> StoredMeta(old(store.view), id).Some?
    ensures r.Some? ==> LoadedFrom(r.value, id, StoredMeta(old(store.view), id).value, session)
    ensures store.view == if r.Some? then Touched(old(store.view), [id], now) else old(store.view)
  {
    var stored := store.ReadMeta(id);
    if stored.None? {
      return None;
    }
    var meta := stored.value;
    var entries := DecodeEntries(meta, session);
    var modules := DecodeModules(meta, session);
    var names := New(entries, modules);
    store.TouchLibraries([id], now);
    r := Some(LibraryIndex(id, names, meta.strings, []));
  }

  datatype Loaded = Cached(cached: LibraryIndex<Option<Symbol>>) | Fresh(built: LibraryIndex<Symbol>) | Unreadable

  lemma {:induction false} RecordsArePartitioned(records: seq<StubRecord>)
    ensures |Classes(records)| + |Modules(records)| == |records|
  {
    if records != [] {
      var n := |records| - 1;
      RecordsArePartitioned(records[..n]);
      assert records == records[..n] + [records[n]];
    }
  }

  /**
   Uses the cache when it is enabled and answers; otherwise builds from the archive's
   records, `None` if it cannot be read. Persisting them is best effort: `writes` says whether the transaction commits.
   */
  method LoadOrBuild(
      id: nat, archive: Option<seq<StubRecord>>, session: Interner, store: StubStore, enabled: bool, writes: bool, now: nat)
    returns (r: Loaded)
    requires store.Valid() && id < U64 && (archive.Some? ==> |archive.value| <= U32)
    modifies store
    ensures store.Valid()
    ensures r.Cached? <==> enabled && StoredMeta(old(store.view), id).Some?
    ensures r.Cached? ==>
      && LoadedFrom(r.cached, id, StoredMeta(old(store.view), id).value, session)
      && store.view == Touched(old(store.view), [id], now)
    ensures r.Unreadable? ==> archive.None? && store.view == old(store.view)
    ensures r.Fresh? ==> archive.Some? && exists meta ::
      && Persists(r.built, session, InOrder(archive.value), meta)
      && r.built.id == id && meta.formatVersion == CACHE_FORMAT_VERSION
      && store.view == if enabled && writes then Written(old(store.view), id, meta, r.built.records) else old(store.view)
  {
    if enabled {
      var cached := LoadFromCache(id, session, store, now);
      if cached.Some? {
        return Cached(cached.value);
      }
    }
    if archive.None? {
      return Unreadable;
    }
    var names, meta, disk := Build(archive.value, session, now);
    RecordsArePartitioned(InOrder(archive.value));
    if enabled && writes {
      store.WriteLibrary(id, meta, disk);
    }
    r := Fresh(LibraryIndex(id, names, meta.strings, disk));
    assert Persists(r.built, session, InOrder(archive.value), meta);
  }

  // ----- the two indexes answer alike

  /** A freshly built index and the meta blob written beside its records. */
  ghost predicate Persists(fresh_: LibraryIndex<Symbol>, i: Interner, archive: seq<StubRecord>, meta: MetaBlob) {
    IsBuildOf(i, archive, fresh_.names, meta, fresh_.records) && fresh_.strings == meta.strings
  }

  /** The store holds what was written for the library, last used at `when`. */
  ghost predicate Holds(view: View, id: nat, meta: MetaBlob, records: seq<DiskRecord>, when: nat) {
    && StoredMeta(view, id) == Some(meta.(lastAccessed := when))
    && (forall idx: nat :: RecordKey(id, idx) in view <==> idx < |records|)
    && (forall idx | 0 <= idx < |records| :: view[RecordKey(id, idx)] == RecordPayload(records[idx]))
  }

  /** The store holds neither meta nor record of the library. */
  ghost predicate Gone(view: View, id: nat) {
    MetaKey(id) !in view && forall idx: nat :: RecordKey(id, idx) !in view
  }

  lemma WrittenHolds(view: View, id: nat, meta: MetaBlob, records: seq<DiskRecord>)
    requires id < U64 - 1 && meta.formatVersion == CACHE_FORMAT_VERSION
    ensures Holds(Written(view, id, meta, records), id, meta, records, meta.lastAccessed)
  {
    var after := Written(view, id, meta, records);
    History.WrittenIsExact(view, id, meta, records, MetaKey(id));
    forall idx: nat ensures RecordKey(id, idx) in after <==> idx < |records| {
      History.WrittenIsExact(view, id, meta, records, RecordKey(id, idx));
    }
    forall idx | 0 <= idx < |records| ensures after[RecordKey(id, idx)] == RecordPayload(records[idx]) {
      History.WrittenIsExact(view, id, meta, records, RecordKey(id, idx));
    }
  }

  predicate Rewrites(op: History.Op, id: nat) {
    op.WriteLibrary? && op.id == id
  }

  /** When the library was last used: the last touch naming it, or the write. */
  function LastUse(written: nat, later: seq<History.Op>, id: nat): nat {
    if later == [] then written
    else
      var op := later[|later| - 1];
      if op.Touch? && id in op.ids then op.now else LastUse(written, later[..|later| - 1], id)
  }

  /** No clear of the library, and at every prune it is live or was used within the time to live. */
  ghost predicate Survives(written: nat, later: seq<History.Op>, id: nat) {
    if later == [] then true
    else
      var earlier, op := later[..|later| - 1], later[|later| - 1];
      && Survives(written, earlier, id)
      && (op.ClearLibrary? ==> op.id != id)
      && (op.Prune? ==> id in op.live || Cutoff(op.now) <= LastUse(written, earlier, id))
  }

  lemma StepHolds(
      h: Hashing, view: View, op: History.Op, id: nat, meta: MetaBlob, records: seq<DiskRecord>, when: nat)
    requires id < U64 - 1 && meta.formatVersion == CACHE_FORMAT_VERSION
    requires Holds(view, id, meta, records, when) && !Rewrites(op, id)
    ensures var after := History.Apply(h, view, op);
      if (op.ClearLibrary? && op.id == id) || (op.Prune? && id !in op.live && when < Cutoff(op.now)) then Gone(after, id)
      else Holds(after, id, meta, records, if op.Touch? && id in op.ids then op.now else when)
  {
    match op
    case WriteLibrary(id', meta', records') =>
      var after := History.Apply(h, view, op);
      forall k: Key | k.id == id ensures (k in after <==> k in view) && (k in after ==> after[k] == view[k]) {
        History.WithRecordsEntries(Cleared(view, id')[MetaKey(id') := MetaPayload(meta')], id', records', k);
      }
    case _ =>
  }

  /** A library that is gone stays gone until it is written again. */
  lemma StepGone(h: Hashing, view: View, op: History.Op, id: nat)
    requires Gone(view, id) && !Rewrites(op, id)
    ensures Gone(History.Apply(h, view, op), id)
  {
    match op
    case WriteLibrary(id', meta', records') =>
      forall k: Key | k.id == id ensures k in History.Apply(h, view, op) <==> k in view {
        History.WithRecordsEntries(Cleared(view, id')[MetaKey(id') := MetaPayload(meta')], id', records', k);
      }
    case _ =>
  }

  /**
   After its last write an entry is found again, as written and with the time of its last
   use, exactly when it survives what came later; otherwise nothing of it is left.
   */
  lemma {:induction false} EntrySurvivesOrIsGone(
      h: Hashing, earlier: seq<History.Op>, later: seq<History.Op>, id: nat, meta: MetaBlob, records: seq<DiskRecord>)
    requires id < U64 - 1 && meta.formatVersion == CACHE_FORMAT_VERSION
    requires forall op | op in later :: !Rewrites(op, id)
    ensures var view := History.Run(h, earlier + [History.WriteLibrary(id, meta, records)] + later);
      if Survives(meta.lastAccessed, later, id) then Holds(view, id, meta, records, LastUse(meta.lastAccessed, later, id))
      else Gone(view, id)
  {
    var base := earlier + [History.WriteLibrary(id, meta, records)];
    if later == [] {
      assert base + later == base && base[..|base| - 1] == earlier;
      WrittenHolds(History.Run(h, earlier), id, meta, records);
    } else {
      var n := |later| - 1;
      EntrySurvivesOrIsGone(h, earlier, later[..n], id, meta, records);
      RunStep(h, base, later);
      var view := History.Run(h, base + later[..n]);
      if Survives(meta.lastAccessed, later[..n], id) {
        StepHolds(h, view, later[n], id, meta, records, LastUse(meta.lastAccessed, later[..n], id));
      } else {
        StepGone(h, view, later[n], id);
      }
    }
  }

  lemma RunStep(h: Hashing, base: seq<History.Op>, later: seq<History.Op>)
    requires later != []
    ensures var n := |later| - 1;
      History.Run(h, base + later) == History.Apply(h, History.Run(h, base + later[..n]), later[n])
  {
    var all := base + later;
    assert all[..|all| - 1] == base + later[..|later| - 1];
  }

  /** Both indexes list the entries under the same names, each in its session's symbols. */
  lemma SameNamesBothSessions(
      fresh_: LibraryIndex<Symbol>, i: Interner, archive: seq<StubRecord>, meta: MetaBlob, session: Interner)
    returns (fqns: seq<string>, packages: seq<string>, modules: seq<string>)
    requires Persists(fresh_, i, archive, meta) && i.Ok() && |meta.strings| <= TABLE_LIMIT
    ensures SameNames(fqns, Fqns(fresh_.names.entries), i.intern, Fqns(DecodedEntries(meta, session)), Decoded(session))
    ensures SameNames(packages, PackagesOf(fresh_.names.entries), i.intern, PackagesOf(DecodedEntries(meta, session)), Decoded(session))
    ensures SameNames(modules, ModuleNames(fresh_.names.modules), i.intern, ModuleNames(DecodedModules(meta, session)), Decoded(session))
  {
    var cs, ms := Classes(archive), Modules(archive);
    var v := Reader(meta.strings, session.intern);
    assert Extends(meta.strings, v);
    fqns := seq(|cs|, k requires 0 <= k < |cs| => cs[k].fqn);
    packages := seq(|cs|, k requires 0 <= k < |cs| => cs[k].package);
    modules := seq(|ms|, k requires 0 <= k < |ms| => ms[k].fqn);
    forall k | 0 <= k < |cs|
      ensures DecodedEntries(meta, session)[k] == MapEntry(EntryOf(i, cs[k]), Respell(i.resolve, v))
    {
      assert EncodesEntry(meta.strings, i.resolve, meta.entries[k], EntriesOf(i, cs)[k]);
    }
    forall k | 0 <= k < |ms|
      ensures DecodedModules(meta, session)[k] == MapModuleEntry(ModuleEntryOf(i, ms[k]), Respell(i.resolve, v))
    {
      assert EncodesModuleEntry(meta.strings, i.resolve, meta.modules[k], ModuleEntriesOf(i, ms)[k]);
    }
  }

  /**
   The index loaded in a later session and the one built from the archive give the
   same position to every class name, package and module name.
   */
  lemma CachedLookupsAgree(
      fresh_: LibraryIndex<Symbol>, i: Interner, archive: seq<StubRecord>, meta: MetaBlob,
      cached: LibraryIndex<Option<Symbol>>, session: Interner, s: string)
    requires Persists(fresh_, i, archive, meta) && i.Ok() && session.Ok() && |meta.strings| <= TABLE_LIMIT
    requires LoadedFrom(cached, fresh_.id, meta, session)
    ensures Lookup(cached.names, Decoded(session)(s)) == Lookup(fresh_.names, i.intern(s))
    ensures ClassesInPackage(cached.names, Decoded(session)(s)) == ClassesInPackage(fresh_.names, i.intern(s))
    ensures LookupModule(cached.names, Decoded(session)(s)) == LookupModule(fresh_.names, i.intern(s))
  {
    var fqns, packages, modules := SameNamesBothSessions(fresh_, i, archive, meta, session);
    var f, g := i.intern, Decoded(session);
    assert Injective(f) && Injective(g);
    LastPositionsAgree(fqns, Fqns(fresh_.names.entries), f, fresh_.names.nameToEntry,
                       Fqns(cached.names.entries), g, cached.names.nameToEntry, s);
    AllPositionsAgree(packages, PackagesOf(fresh_.names.entries), f, fresh_.names.packageToEntries,
                      PackagesOf(cached.names.entries), g, cached.names.packageToEntries, s);
    LastPositionsAgree(modules, ModuleNames(fresh_.names.modules), f, fresh_.names.moduleNameToEntry,
                       ModuleNames(cached.names.modules), g, cached.names.moduleNameToEntry, s);
  }

  /** Entry by entry the loaded index is the built one, each symbol respelled for the session. */
  lemma CachedEntriesAgree(
      fresh_: LibraryIndex<Symbol>, i: Interner, archive: seq<StubRecord>, meta: MetaBlob,
      cached: LibraryIndex<Option<Symbol>>, session: Interner)
    requires Persists(fresh_, i, archive, meta) && |meta.strings| <= TABLE_LIMIT
    requires LoadedFrom(cached, fresh_.id, meta, session)
    ensures var f := Respell(i.resolve, Reader(meta.strings, session.intern));
      && |cached.names.entries| == |fresh_.names.entries| && |cached.names.modules| == |fresh_.names.modules|
      && (forall k | 0 <= k < |fresh_.names.entries| :: cached.names.entries[k] == MapEntry(fresh_.names.entries[k], f))
      && (forall k | 0 <= k < |fresh_.names.modules| :: cached.names.modules[k] == MapModuleEntry(fresh_.names.modules[k], f))
  {
    var v := Reader(meta.strings, session.intern);
    assert Extends(meta.strings, v);
    var es, ms := fresh_.names.entries, fresh_.names.modules;
    forall k | 0 <= k < |es| ensures cached.names.entries[k] == MapEntry(es[k], Respell(i.resolve, v)) {
      assert EncodesEntry(meta.strings, i.resolve, meta.entries[k], es[k]);
    }
    forall k | 0 <= k < |ms| ensures cached.names.modules[k] == MapModuleEntry(ms[k], Respell(i.resolve, v)) {
      assert EncodesModuleEntry(meta.strings, i.resolve, meta.modules[k], ms[k]);
    }
  }

  /** What either index answers for the record at a position, in a session's symbols. */
  ghost function RecordAnswer(archive: seq<StubRecord>, i: Interner, session: Interner, idx: nat)
    : Option<ClassOrModuleStub<Option<Symbol>>>
  {
    var all := Classes(archive) + Modules(archive);
    if idx < |all| then Some(MapStub(all[idx].stub, Respell(i.resolve, Reader([], session.intern)))) else None
  }

  /** Read from memory or read from the store: every position answers the stub parsed from the archive. */
  lemma RecordsAgree(
      fresh_: LibraryIndex<Symbol>, i: Interner, archive: seq<StubRecord>, meta: MetaBlob,
      view: View, when: nat, session: Interner, idx: nat)
    requires Persists(fresh_, i, archive, meta) && |meta.strings| <= TABLE_LIMIT
    requires Holds(view, fresh_.id, meta, fresh_.records, when)
    ensures RecordIn(view, fresh_.id, fresh_.strings, fresh_.records, i, idx) == RecordAnswer(archive, i, i, idx)
    ensures RecordIn(view, fresh_.id, meta.strings, [], session, idx) == RecordAnswer(archive, i, session, idx)
  {
    var all := Classes(archive) + Modules(archive);
    assert |fresh_.records| == |all|;
    assert RecordKey(fresh_.id, idx) in view <==> idx < |all|;
    if idx < |all| {
      assert EncodesStub(meta.strings, i.resolve, fresh_.records[idx], all[idx].stub);
      StubAt(meta.strings, fresh_.records[idx], all[idx].stub, i, i);
      StubAt(meta.strings, fresh_.records[idx], all[idx].stub, i, session);
    }
  }

  /** The records a built index keeps answer for every class and module without the store, whatever that holds. */
  lemma BuiltNeedsNoStore(
      fresh_: LibraryIndex<Symbol>, i: Interner, archive: seq<StubRecord>, meta: MetaBlob, view: View, idx: nat)
    requires Persists(fresh_, i, archive, meta) && |meta.strings| <= TABLE_LIMIT
    requires idx < |fresh_.names.entries| + |fresh_.names.modules|
    ensures RecordIn(view, fresh_.id, fresh_.strings, fresh_.records, i, idx) == RecordAnswer(archive, i, i, idx)
    ensures RecordAnswer(archive, i, i, idx).Some?
  {
    var all := Classes(archive) + Modules(archive);
    assert EncodesStub(meta.strings, i.resolve, fresh_.records[idx], all[idx].stub);
    StubAt(meta.strings, fresh_.records[idx], all[idx].stub, i, i);
  }

  lemma StubAt(strings: seq<string>, disk: DiskRecord, stub: ClassOrModuleStub<Symbol>, i: Interner, session: Interner)
    requires EncodesStub(strings, i.resolve, disk, stub) && |strings| <= TABLE_LIMIT
    ensures MapStub(disk, Look(Reader(strings, session.intern)))
         == MapStub(stub, Respell(i.resolve, Reader([], session.intern)))
  {
    var v := Reader(strings, session.intern);
    assert Extends(strings, v);
  }

  /**
   Class record `k` carries the qualified name of entry `k`, and module record `j`
   is found right after all the classes, when each parsed record is named after its stub.
   */
  lemma RecordsLineUp(fresh_: LibraryIndex<Symbol>, i: Interner, archive: seq<StubRecord>, meta: MetaBlob, session: Interner)
    requires Persists(fresh_, i, archive, meta) && i.Ok()
    requires forall r | r in archive :: NamesItsStub(i, r)
    ensures var es, ms := fresh_.names.entries, fresh_.names.modules;
      && (forall k | 0 <= k < |es| ::
            var r := RecordAnswer(archive, i, session, k);
            r.Some? && r.value.Class? && r.value.Fqn() == Some(session.intern(i.resolve(es[k].fqn))))
      && (forall k | |es| <= k < |es| + |ms| ::
            var r := RecordAnswer(archive, i, session, k);
            r.Some? && r.value.Module? && r.value.Fqn() == Some(session.intern(i.resolve(ms[k - |es|].name))))
      && (forall k | |es| + |ms| <= k :: RecordAnswer(archive, i, session, k) == None)
  {
    var cs, ms := Classes(archive), Modules(archive);
    forall k | 0 <= k < |cs|
      ensures RecordAnswer(archive, i, session, k).Some?
    {
      assert cs[k] in archive;
      assert i.resolve(EntriesOf(i, cs)[k].fqn) == cs[k].fqn;
    }
    forall k | |cs| <= k < |cs| + |ms|
      ensures RecordAnswer(archive, i, session, k).Some?
    {
      assert ms[k - |cs|] in archive;
      assert i.resolve(ModuleEntriesOf(i, ms)[k - |cs|].name) == ms[k - |cs|].fqn;
    }
  }

  /**
   A warm start finds the entry exactly when it survived since the cold start that wrote
   it, and then answers alike: the loaded index gives every name the same positions and
   every position the same stub.
   */
  lemma WarmStartAgrees(
      h: Hashing, earlier: seq<History.Op>, later: seq<History.Op>,
      fresh_: LibraryIndex<Symbol>, i: Interner, archive: seq<StubRecord>, meta: MetaBlob,
      cached: LibraryIndex<Option<Symbol>>, session: Interner, s: string, idx: nat)
    requires Persists(fresh_, i, archive, meta) && i.Ok() && session.Ok()
    requires fresh_.id < U64 - 1 && meta.formatVersion == CACHE_FORMAT_VERSION && |meta.strings| <= TABLE_LIMIT
    requires forall op | op in later :: !Rewrites(op, fresh_.id)
    ensures var view := History.Run(h, earlier + [History.WriteLibrary(fresh_.id, meta, fresh_.records)] + later);
      var stored := StoredMeta(view, fresh_.id);
      && (stored.Some? <==> Survives(meta.lastAccessed, later, fresh_.id))
      && RecordIn(view, fresh_.id, fresh_.strings, fresh_.records, i, idx) == RecordAnswer(archive, i, i, idx)
      && (stored.Some? && LoadedFrom(cached, fresh_.id, stored.value, session) ==>
            && Lookup(cached.names, Decoded(session)(s)) == Lookup(fresh_.names, i.intern(s))
            && ClassesInPackage(cached.names, Decoded(session)(s)) == ClassesInPackage(fresh_.names, i.intern(s))
            && LookupModule(cached.names, Decoded(session)(s)) == LookupModule(fresh_.names, i.intern(s))
            && RecordIn(view, cached.id, cached.strings, cached.records, session, idx)
                 == RecordAnswer(archive, i, session, idx))
  {
    var view := History.Run(h, earlier + [History.WriteLibrary(fresh_.id, meta, fresh_.records)] + later);
    EntrySurvivesOrIsGone(h, earlier, later, fresh_.id, meta, fresh_.records);
    if Survives(meta.lastAccessed, later, fresh_.id) {
      var when := LastUse(meta.lastAccessed, later, fresh_.id);
      RecordsAgree(fresh_, i, archive, meta, view, when, session, idx);
      LoadedAgrees(fresh_, i, archive, meta, cached, session, s, when);
    } else {
      GoneLeavesMemory(fresh_, i, archive, meta, view, idx);
    }
  }

  /** The time of last use does not matter to what is loaded. */
  lemma LoadedAgrees(
      fresh_: LibraryIndex<Symbol>, i: Interner, archive: seq<StubRecord>, meta: MetaBlob,
      cached: LibraryIndex<Option<Symbol>>, session: Interner, s: string, when: nat)
    requires Persists(fresh_, i, archive, meta) && i.Ok() && session.Ok() && |meta.strings| <= TABLE_LIMIT
    ensures LoadedFrom(cached, fresh_.id, meta.(lastAccessed := when), session) ==>
      && LoadedFrom(cached, fresh_.id, meta, session)
      && Lookup(cached.names, Decoded(session)(s)) == Lookup(fresh_.names, i.intern(s))
      && ClassesInPackage(cached.names, Decoded(session)(s)) == ClassesInPackage(fresh_.names, i.intern(s))
      && LookupModule(cached.names, Decoded(session)(s)) == LookupModule(fresh_.names, i.intern(s))
  {
    var stored := meta.(lastAccessed := when);
    if LoadedFrom(cached, fresh_.id, stored, session) {
      assert DecodedEntries(stored, session) == DecodedEntries(meta, session);
      assert DecodedModules(stored, session) == DecodedModules(meta, session);
      CachedLookupsAgree(fresh_, i, archive, meta, cached, session, s);
    }
  }

  /** A session that built its index goes on answering from memory when the entry is gone. */
  lemma GoneLeavesMemory(
      fresh_: LibraryIndex<Symbol>, i: Interner, archive: seq<StubRecord>, meta: MetaBlob, view: View, idx: nat)
    requires Persists(fresh_, i, archive, meta) && |meta.strings| <= TABLE_LIMIT && Gone(view, fresh_.id)
    ensures RecordIn(view, fresh_.id, fresh_.strings, fresh_.records, i, idx) == RecordAnswer(archive, i, i, idx)
  {
    if idx < |fresh_.names.entries| + |fresh_.names.modules| {
      BuiltNeedsNoStore(fresh_, i, archive, meta, view, idx);
    } else {
      assert RecordKey(fresh_.id, idx) !in view;
    }
  }
}
