/**
 Building a library index and loading it back, after `crates/hir/src/loader.rs`
 and the record access of `crates/hir/src/index.rs`.
 */
module Loader {
  import opened Wrappers
  import opened Stubs
  import opened StringTable
  import opened NameIndexes
  import opened Sorting
  import Store = StubStore

  /** A session's interner: distinct strings have distinct symbols. */
  datatype Interner = Interner(intern: string -> Symbol, resolve: Symbol -> string) {
    ghost predicate Ok() {
      forall s :: resolve(intern(s)) == s
    }
  }

  /** One parsed declaration with its fully qualified name. */
  datatype StubRecord = StubRecord(
    fqn: string, package: string, owner: Option<Symbol>, stub: ClassOrModuleStub<Symbol>)

  /** The record carries the spelling of the name its stub declares. */
  ghost predicate NamesItsStub(i: Interner, r: StubRecord) {
    r.fqn == i.resolve(r.stub.Fqn())
  }

  // ----- specification: the entries a list of records stands for

  function ReferenceName(t: TypeRef<Symbol>): Option<Symbol> {
    if t.Reference? then Some(t.name) else None
  }

  function ReferenceNames(ts: seq<TypeRef<Symbol>>): seq<Symbol> {
    if ts == [] then []
    else (if ts[0].Reference? then [ts[0].name] else []) + ReferenceNames(ts[1..])
  }

  function EntryOf(i: Interner, r: StubRecord): ClassEntry<Symbol>
    requires r.stub.Class?
  {
    var c := r.stub.class_;
    ClassEntry(
      i.intern(r.fqn), i.intern(r.package), KindFromFlags(c.flags, c.isRecord), c.flags,
      if c.superClass.Some? then ReferenceName(c.superClass.value) else None,
      ReferenceNames(c.interfaces), r.owner)
  }

  function ModuleEntryOf(i: Interner, r: StubRecord): ModuleEntry<Symbol>
    requires r.stub.Module?
  {
    ModuleEntry(i.intern(r.fqn), r.stub.module_.flags, r.stub.module_.version)
  }

  /** The class records, in order. */
  function Classes(records: seq<StubRecord>): (cs: seq<StubRecord>)
    ensures forall k | 0 <= k < |cs| :: cs[k].stub.Class? && cs[k] in records
  {
    if records == [] then []
    else
      var r := records[|records| - 1];
      Classes(records[..|records| - 1]) + (if r.stub.Class? then [r] else [])
  }

  /** The module records, in order. */
  function Modules(records: seq<StubRecord>): (ms: seq<StubRecord>)
    ensures forall k | 0 <= k < |ms| :: ms[k].stub.Module? && ms[k] in records
  {
    if records == [] then []
    else
      var r := records[|records| - 1];
      Modules(records[..|records| - 1]) + (if r.stub.Module? then [r] else [])
  }

  lemma OneMoreRecord(done: seq<StubRecord>, r: StubRecord)
    ensures Classes(done + [r]) == Classes(done) + (if r.stub.Class? then [r] else [])
    ensures Modules(done + [r]) == Modules(done) + (if r.stub.Module? then [r] else [])
  {
    var all := done + [r];
    assert all[..|all| - 1] == done;
  }

  function EntriesOf(i: Interner, cs: seq<StubRecord>): seq<ClassEntry<Symbol>>
    requires forall k | 0 <= k < |cs| :: cs[k].stub.Class?
  {
    seq(|cs|, k requires 0 <= k < |cs| => EntryOf(i, cs[k]))
  }

  function ModuleEntriesOf(i: Interner, ms: seq<StubRecord>): seq<ModuleEntry<Symbol>>
    requires forall k | 0 <= k < |ms| :: ms[k].stub.Module?
  {
    seq(|ms|, k requires 0 <= k < |ms| => ModuleEntryOf(i, ms[k]))
  }

  // ----- entries through the string table

  function MapEntry<N, M>(e: ClassEntry<N>, f: N -> M): ClassEntry<M> {
    ClassEntry(
      f(e.fqn), f(e.package), e.kind, e.flags, MapOption(e.superClass, f), MapNames(e.interfaces, f),
      MapOption(e.owner, f))
  }

  function MapModuleEntry<N, M>(e: ModuleEntry<N>, f: N -> M): ModuleEntry<M> {
    ModuleEntry(f(e.name), e.flags, MapOption(e.version, f))
  }

  ghost predicate EncodesEntry(strings: seq<string>, resolve: Symbol -> string, r: ClassEntry<nat>, e: ClassEntry<Symbol>) {
    forall v: Reader :: Extends(strings, v) ==> MapEntry(r, Look(v)) == MapEntry(e, Respell(resolve, v))
  }

  ghost predicate EncodesModuleEntry(strings: seq<string>, resolve: Symbol -> string, r: ModuleEntry<nat>, e: ModuleEntry<Symbol>) {
    forall v: Reader :: Extends(strings, v) ==> MapModuleEntry(r, Look(v)) == MapModuleEntry(e, Respell(resolve, v))
  }

  ghost predicate EncodesEntries(strings: seq<string>, resolve: Symbol -> string, rs: seq<ClassEntry<nat>>, es: seq<ClassEntry<Symbol>>) {
    |rs| == |es| && forall k | 0 <= k < |rs| :: EncodesEntry(strings, resolve, rs[k], es[k])
  }

  ghost predicate EncodesModuleEntries(strings: seq<string>, resolve: Symbol -> string, rs: seq<ModuleEntry<nat>>, es: seq<ModuleEntry<Symbol>>) {
    |rs| == |es| && forall k | 0 <= k < |rs| :: EncodesModuleEntry(strings, resolve, rs[k], es[k])
  }

  ghost predicate EncodesStubs(strings: seq<string>, resolve: Symbol -> string, rs: seq<Store.DiskRecord>, records: seq<StubRecord>) {
    |rs| == |records| && forall k | 0 <= k < |rs| :: EncodesStub(strings, resolve, rs[k], records[k].stub)
  }

  // What was encoded stays encoded while the table grows.

  lemma EntriesStay(before: seq<string>, after: seq<string>, resolve: Symbol -> string, rs: seq<ClassEntry<nat>>, es: seq<ClassEntry<Symbol>>)
    requires before <= after && EncodesEntries(before, resolve, rs, es)
    ensures EncodesEntries(after, resolve, rs, es)
  {
    ExtendsEarlier(before, after);
  }

  lemma ModuleEntriesStay(before: seq<string>, after: seq<string>, resolve: Symbol -> string, rs: seq<ModuleEntry<nat>>, es: seq<ModuleEntry<Symbol>>)
    requires before <= after && EncodesModuleEntries(before, resolve, rs, es)
    ensures EncodesModuleEntries(after, resolve, rs, es)
  {
    ExtendsEarlier(before, after);
  }

  lemma StubsStay(before: seq<string>, after: seq<string>, resolve: Symbol -> string, rs: seq<Store.DiskRecord>, ts: seq<StubRecord>)
    requires before <= after && EncodesStubs(before, resolve, rs, ts)
    ensures EncodesStubs(after, resolve, rs, ts)
  {
    ExtendsEarlier(before, after);
  }

  method DiskEntry(table: StubStringTable, e: ClassEntry<Symbol>) returns (r: ClassEntry<nat>)
    requires table.Valid()
    modifies table
    ensures table.Valid() && old(table.strings) <= table.strings
    ensures EncodesEntry(table.strings, table.resolve, r, e)
  {
    var name := table.Name(e.fqn);
    ghost var s0 := table.strings;
    var package := table.Name(e.package);
    ghost var s1 := table.strings;
    var superClass := table.NameOption(e.superClass);
    ghost var s2 := table.strings;
    var interfaces := table.Names(e.interfaces);
    ghost var s3 := table.strings;
    var owner := table.NameOption(e.owner);
    ExtendsEarlier(s0, table.strings);
    ExtendsEarlier(s1, table.strings);
    ExtendsEarlier(s2, table.strings);
    ExtendsEarlier(s3, table.strings);
    r := ClassEntry(name, package, e.kind, e.flags, superClass, interfaces, owner);
  }

  method DiskModule(table: StubStringTable, m: ModuleEntry<Symbol>) returns (r: ModuleEntry<nat>)
    requires table.Valid()
    modifies table
    ensures table.Valid() && old(table.strings) <= table.strings
    ensures EncodesModuleEntry(table.strings, table.resolve, r, m)
  {
    var name := table.Name(m.name);
    ghost var s0 := table.strings;
    var version := table.NameOption(m.version);
    ExtendsEarlier(s0, table.strings);
    r := ModuleEntry(name, m.flags, version);
  }

  lemma OneMoreModuleEntry(
      before: seq<string>, after: seq<string>, resolve: Symbol -> string,
      rs: seq<ModuleEntry<nat>>, ms: seq<ModuleEntry<Symbol>>, k: nat, r: ModuleEntry<nat>)
    requires before <= after && k < |ms| && EncodesModuleEntries(before, resolve, rs, ms[..k])
    requires EncodesModuleEntry(after, resolve, r, ms[k])
    ensures EncodesModuleEntries(after, resolve, rs + [r], ms[..k + 1])
  {
    ModuleEntriesStay(before, after, resolve, rs, ms[..k]);
  }

  method DiskModules(table: StubStringTable, ms: seq<ModuleEntry<Symbol>>) returns (rs: seq<ModuleEntry<nat>>)
    requires table.Valid()
    modifies table
    ensures table.Valid() && old(table.strings) <= table.strings
    ensures EncodesModuleEntries(table.strings, table.resolve, rs, ms)
  {
    rs := [];
    for k := 0 to |ms|
      invariant table.Valid() && old(table.strings) <= table.strings
      invariant EncodesModuleEntries(table.strings, table.resolve, rs, ms[..k])
    {
      ghost var before := table.strings;
      var r := DiskModule(table, ms[k]);
      OneMoreModuleEntry(before, table.strings, table.resolve, rs, ms, k, r);
      rs := rs + [r];
    }
    assert ms[..|ms|] == ms;
  }

  // ----- build

  /** The index and the payloads speak of exactly these records, classes before modules. */
  ghost predicate IsBuildOf(
      i: Interner, records: seq<StubRecord>, names: NameIndex<Symbol>, meta: Store.MetaBlob, disk: seq<Store.DiskRecord>) {
    var cs, ms := Classes(records), Modules(records);
    && IsIndexOf(names, EntriesOf(i, cs), ModuleEntriesOf(i, ms))
    && EncodesEntries(meta.strings, i.resolve, meta.entries, EntriesOf(i, cs))
    && EncodesModuleEntries(meta.strings, i.resolve, meta.modules, ModuleEntriesOf(i, ms))
    && EncodesStubs(meta.strings, i.resolve, disk, cs + ms)
  }

  /** What the loop has accumulated for the records done so far. */
  datatype Parts = Parts(
    entries: seq<ClassEntry<Symbol>>, modules: seq<ModuleEntry<Symbol>>, diskEntries: seq<ClassEntry<nat>>,
    diskClasses: seq<Store.DiskRecord>, diskModules: seq<Store.DiskRecord>)
  {
    ghost predicate For(i: Interner, done: seq<StubRecord>, strings: seq<string>) {
      && entries == EntriesOf(i, Classes(done)) && modules == ModuleEntriesOf(i, Modules(done))
      && EncodesEntries(strings, i.resolve, diskEntries, entries)
      && EncodesStubs(strings, i.resolve, diskClasses, Classes(done))
      && EncodesStubs(strings, i.resolve, diskModules, Modules(done))
    }
  }

  lemma ClassDone(
      p: Parts, i: Interner, done: seq<StubRecord>, r: StubRecord, before: seq<string>, strings: seq<string>,
      entry: ClassEntry<nat>, disk: ClassStub<nat>)
    requires r.stub.Class? && before <= strings && p.For(i, done, before)
    requires EncodesEntry(strings, i.resolve, entry, EntryOf(i, r))
    requires EncodesStub(strings, i.resolve, Class(disk), r.stub)
    ensures p.(entries := p.entries + [EntryOf(i, r)], diskEntries := p.diskEntries + [entry],
               diskClasses := p.diskClasses + [Class(disk)]).For(i, done + [r], strings)
  {
    EntriesStay(before, strings, i.resolve, p.diskEntries, p.entries);
    StubsStay(before, strings, i.resolve, p.diskClasses, Classes(done));
    StubsStay(before, strings, i.resolve, p.diskModules, Modules(done));
    OneMoreRecord(done, r);
  }

  lemma ModuleDone(
      p: Parts, i: Interner, done: seq<StubRecord>, r: StubRecord, before: seq<string>, strings: seq<string>,
      disk: ModuleStub<nat>)
    requires r.stub.Module? && before <= strings && p.For(i, done, before)
    requires EncodesStub(strings, i.resolve, Module(disk), r.stub)
    ensures p.(modules := p.modules + [ModuleEntryOf(i, r)], diskModules := p.diskModules + [Module(disk)])
             .For(i, done + [r], strings)
  {
    EntriesStay(before, strings, i.resolve, p.diskEntries, p.entries);
    StubsStay(before, strings, i.resolve, p.diskClasses, Classes(done));
    StubsStay(before, strings, i.resolve, p.diskModules, Modules(done));
    OneMoreRecord(done, r);
  }

  lemma AllDone(p: Parts, i: Interner, records: seq<StubRecord>, before: seq<string>, strings: seq<string>,
                dm: seq<ModuleEntry<nat>>, names: NameIndex<Symbol>, now: nat)
    requires before <= strings && p.For(i, records, before)
    requires EncodesModuleEntries(strings, i.resolve, dm, p.modules)
    requires IsIndexOf(names, p.entries, p.modules)
    ensures IsBuildOf(i, records, names, Store.MetaBlob(Store.CACHE_FORMAT_VERSION, strings, p.diskEntries, dm, now),
                      p.diskClasses + p.diskModules)
  {
    EntriesStay(before, strings, i.resolve, p.diskEntries, p.entries);
    StubsStay(before, strings, i.resolve, p.diskClasses, Classes(records));
    StubsStay(before, strings, i.resolve, p.diskModules, Modules(records));
  }

  /** The records sorted by name, those of one name in the order they were parsed. */
  function InOrder(records: seq<StubRecord>): (sorted: seq<StubRecord>)
    ensures |sorted| == |records| && forall r :: r in sorted <==> r in records
  {
    var key := (r: StubRecord) => r.fqn;
    SortIsStable(records, key);
    SortBy(records, key)
  }

  ghost predicate DistinctNames(records: seq<StubRecord>) {
    forall i, j | 0 <= i < j < |records| :: records[i].fqn != records[j].fqn
  }

  /** Archives holding the same distinctly named records are built in one order, however they were parsed. */
  lemma OrderIsDeterministic(records: seq<StubRecord>, records': seq<StubRecord>)
    requires DistinctNames(records) && DistinctNames(records')
    requires forall r :: r in records <==> r in records'
    ensures InOrder(records) == InOrder(records')
  {
    var key := (r: StubRecord) => r.fqn;
    forall name ensures Named(records, key, name) == Named(records', key, name) {
      NamedOfDistinct(records, name, key);
      NamedOfDistinct(records', name, key);
      AtMostOneAlike(Named(records, key, name), Named(records', key, name));
    }
    SortForgetsOrder(records, records', key);
  }

  lemma {:induction false} NamedOfDistinct(records: seq<StubRecord>, name: string, key: StubRecord -> string)
    requires DistinctNames(records) && key == ((r: StubRecord) => r.fqn)
    ensures |Named(records, key, name)| <= 1
    ensures forall r :: r in Named(records, key, name) <==> r in records && r.fqn == name
  {
    if records != [] {
      var front, last := records[..|records| - 1], records[|records| - 1];
      NamedOfDistinct(front, name, key);
      assert records == front + [last];
      forall r | r in front ensures r.fqn != last.fqn {
        var i :| 0 <= i < |front| && front[i] == r;
        assert records[i] == r && records[|records| - 1] == last;
      }
      var before := Named(front, key, name);
      assert before != [] ==> before[0] in before;
    }
  }

  lemma AtMostOneAlike<T>(xs: seq<T>, ys: seq<T>)
    requires |xs| <= 1 && |ys| <= 1 && forall x :: x in xs <==> x in ys
    ensures xs == ys
  {
    assert xs != [] ==> xs[0] in xs;
    assert ys != [] ==> ys[0] in ys;
  }

  /** Builds index and payloads from the records, once sorted. */
  method Build(parsed: seq<StubRecord>, i: Interner, now: nat)
    returns (names: NameIndex<Symbol>, meta: Store.MetaBlob, disk: seq<Store.DiskRecord>)
    ensures IsBuildOf(i, InOrder(parsed), names, meta, disk)
    ensures meta.formatVersion == Store.CACHE_FORMAT_VERSION && meta.lastAccessed == now
  {
    var records := InOrder(parsed);
    names, meta, disk := BuildInOrder(records, i, now);
  }

  method BuildInOrder(records: seq<StubRecord>, i: Interner, now: nat)
    returns (names: NameIndex<Symbol>, meta: Store.MetaBlob, disk: seq<Store.DiskRecord>)
    ensures IsBuildOf(i, records, names, meta, disk)
    ensures meta.formatVersion == Store.CACHE_FORMAT_VERSION && meta.lastAccessed == now
  {
    var table := new StubStringTable(i.resolve);
    var p := Parts([], [], [], [], []);
    for k := 0 to |records|
      invariant table.Valid() && fresh(table) && table.resolve == i.resolve
      invariant p.For(i, records[..k], table.strings)
    {
      var record := records[k];
      p := BuildOne(table, i, records[..k], record, p);
      assert records[..k + 1] == records[..k] + [record];
    }
    assert records[..|records|] == records;
    ghost var before := table.strings;
    var dm := DiskModules(table, p.modules);
    names := New(p.entries, p.modules);
    AllDone(p, i, records, before, table.strings, dm, names, now);
    disk := p.diskClasses + p.diskModules;
    meta := Store.MetaBlob(Store.CACHE_FORMAT_VERSION, table.strings, p.diskEntries, dm, now);
  }

  /** One turn of the loop of `Build`. */
  method BuildOne(table: StubStringTable, i: Interner, ghost done: seq<StubRecord>, record: StubRecord, p: Parts)
    returns (p': Parts)
    requires table.Valid() && table.resolve == i.resolve && p.For(i, done, table.strings)
    modifies table
    ensures table.Valid() && p'.For(i, done + [record], table.strings)
  {
    ghost var before := table.strings;
    match record.stub
    case Class(c) =>
      var disk := table.Class(c);
      ghost var s0 := table.strings;
      var entry := DiskEntry(table, EntryOf(i, record));
      ExtendsEarlier(s0, table.strings);
      ClassDone(p, i, done, record, before, table.strings, entry, disk);
      p' := p.(entries := p.entries + [EntryOf(i, record)], diskEntries := p.diskEntries + [entry],
               diskClasses := p.diskClasses + [Class(disk)]);
    case Module(m) =>
      var disk := table.Module(m);
      ModuleDone(p, i, done, record, before, table.strings, disk);
      p' := p.(modules := p.modules + [ModuleEntryOf(i, record)], diskModules := p.diskModules + [Module(disk)]);
  }
}
