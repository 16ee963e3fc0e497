/**
 Encoding and decoding, end to end: what a reader decodes, spelled in its session's
 strings, is the original spelled in the encoding session's.
 */
module RoundTrips {
  import opened Wrappers
  import opened Stubs
  import opened StringTable
  import opened NameIndexes
  import opened StoreKeys
  import opened StubStore
  import opened Loader
  import opened CachedIndex
  import opened StubLaws

  /** A decoded symbol as a string; `None` stays the resolver's panic. */
  function Spelled(session: Interner): Option<Symbol> -> Option<string> {
    (o: Option<Symbol>) => if o.Some? then Some(session.resolve(o.value)) else None
  }

  function Spelling(i: Interner): Symbol -> Option<string> {
    (s: Symbol) => Some(i.resolve(s))
  }

  /** Every symbol is the one its spelling is interned as. */
  ghost predicate OwnsSymbols(i: Interner) {
    forall s: Symbol :: i.intern(i.resolve(s)) == s
  }

  function Unwrapped(o: Option<Symbol>): Symbol {
    if o.Some? then o.value else 0
  }

  /** Decode, then resolve: the original with its names spelled. */
  lemma DecodedStubSpellsOriginal(
      strings: seq<string>, i: Interner, session: Interner, disk: ClassOrModuleStub<nat>, stub: ClassOrModuleStub<Symbol>)
    requires EncodesStub(strings, i.resolve, disk, stub) && |strings| <= TABLE_LIMIT && session.Ok()
    ensures MapStub(MapStub(disk, Look(Reader(strings, session.intern))), Spelled(session)) == MapStub(stub, Spelling(i))
  {
    var v := Reader(strings, session.intern);
    assert Extends(strings, v);
    StubComposes(stub, Respell(i.resolve, v), Spelled(session), Spelling(i));
  }

  /** Decoded in the session that encoded it, a stub is the very stub. */
  lemma DecodedStubIsOriginal(
      strings: seq<string>, i: Interner, disk: ClassOrModuleStub<nat>, stub: ClassOrModuleStub<Symbol>)
    requires EncodesStub(strings, i.resolve, disk, stub) && |strings| <= TABLE_LIMIT && OwnsSymbols(i)
    ensures MapStub(MapStub(disk, Look(Reader(strings, i.intern))), Unwrapped) == stub
  {
    var v := Reader(strings, i.intern);
    assert Extends(strings, v);
    var same := (s: Symbol) => s;
    StubComposes(stub, Respell(i.resolve, v), Unwrapped, same);
    StubIsKept(stub, same);
  }

  lemma DecodedEntrySpellsOriginal(
      strings: seq<string>, i: Interner, session: Interner, disk: ClassEntry<nat>, entry: ClassEntry<Symbol>)
    requires EncodesEntry(strings, i.resolve, disk, entry) && |strings| <= TABLE_LIMIT && session.Ok()
    ensures MapEntry(MapEntry(disk, Look(Reader(strings, session.intern))), Spelled(session)) == MapEntry(entry, Spelling(i))
  {
    var v := Reader(strings, session.intern);
    assert Extends(strings, v);
    EntryComposes(entry, Respell(i.resolve, v), Spelled(session), Spelling(i));
  }

  lemma DecodedEntryIsOriginal(strings: seq<string>, i: Interner, disk: ClassEntry<nat>, entry: ClassEntry<Symbol>)
    requires EncodesEntry(strings, i.resolve, disk, entry) && |strings| <= TABLE_LIMIT && OwnsSymbols(i)
    ensures MapEntry(MapEntry(disk, Look(Reader(strings, i.intern))), Unwrapped) == entry
  {
    var v := Reader(strings, i.intern);
    assert Extends(strings, v);
    var same := (s: Symbol) => s;
    EntryComposes(entry, Respell(i.resolve, v), Unwrapped, same);
    EntryIsKept(entry, same);
  }

  lemma DecodedModuleEntrySpellsOriginal(
      strings: seq<string>, i: Interner, session: Interner, disk: ModuleEntry<nat>, entry: ModuleEntry<Symbol>)
    requires EncodesModuleEntry(strings, i.resolve, disk, entry) && |strings| <= TABLE_LIMIT && session.Ok()
    ensures MapModuleEntry(MapModuleEntry(disk, Look(Reader(strings, session.intern))), Spelled(session))
         == MapModuleEntry(entry, Spelling(i))
  {
    var v := Reader(strings, session.intern);
    assert Extends(strings, v);
    ModuleEntryComposes(entry, Respell(i.resolve, v), Spelled(session), Spelling(i));
  }

  lemma DecodedModuleEntryIsOriginal(strings: seq<string>, i: Interner, disk: ModuleEntry<nat>, entry: ModuleEntry<Symbol>)
    requires EncodesModuleEntry(strings, i.resolve, disk, entry) && |strings| <= TABLE_LIMIT && OwnsSymbols(i)
    ensures MapModuleEntry(MapModuleEntry(disk, Look(Reader(strings, i.intern))), Unwrapped) == entry
  {
    var v := Reader(strings, i.intern);
    assert Extends(strings, v);
    var same := (s: Symbol) => s;
    ModuleEntryComposes(entry, Respell(i.resolve, v), Unwrapped, same);
    ModuleEntryIsKept(entry, same);
  }

  /** A record read in a later session, from memory or from the store, spells the stub parsed from the archive. */
  lemma StoredRecordSpellsArchive(
      fresh_: LibraryIndex<Symbol>, i: Interner, archive: seq<StubRecord>, meta: MetaBlob,
      view: View, when: nat, session: Interner, idx: nat)
    requires Persists(fresh_, i, archive, meta) && |meta.strings| <= TABLE_LIMIT && session.Ok()
    requires Holds(view, fresh_.id, meta, fresh_.records, when)
    ensures var all, r := Classes(archive) + Modules(archive), RecordIn(view, fresh_.id, meta.strings, [], session, idx);
      && (r.Some? <==> idx < |all|)
      && (r.Some? ==> MapStub(r.value, Spelled(session)) == MapStub(all[idx].stub, Spelling(i)))
  {
    var all := Classes(archive) + Modules(archive);
    RecordsAgree(fresh_, i, archive, meta, view, when, session, idx);
    if idx < |all| {
      StubComposes(all[idx].stub, Respell(i.resolve, Reader([], session.intern)), Spelled(session), Spelling(i));
    }
  }
}
