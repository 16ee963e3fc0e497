/**
 What a built index answers, told by the records it was built from.
 */
module BuiltIndex {
  import opened Wrappers
  import opened Stubs
  import opened StringTable
  import opened NameIndexes
  import opened Loader
  import Store = StubStore

  // ----- the class and module records, as positions of the list

  /** `at` lists, in order, the positions of exactly the records that pass. */
  ghost predicate Picks(records: seq<StubRecord>, picked: seq<StubRecord>, at: seq<nat>, classes: bool) {
    && |at| == |picked|
    && (forall k | 0 <= k < |at| :: at[k] < |records| && records[at[k]] == picked[k])
    && (forall j, k | 0 <= j < k < |at| :: at[j] < at[k])
    && (forall n: nat | n < |records| :: n in at <==> (if classes then records[n].stub.Class? else records[n].stub.Module?))
  }

  lemma {:induction false} ClassesArePicked(records: seq<StubRecord>) returns (at: seq<nat>)
    ensures Picks(records, Classes(records), at, true)
  {
    at := [];
    if records != [] {
      var front, last := records[..|records| - 1], records[|records| - 1];
      at := ClassesArePicked(front);
      PickOneMore(front, last, Classes(front), at, true);
      OneMoreRecord(front, last);
      if last.stub.Class? {
        at := at + [|front|];
      }
      assert records == front + [last];
    }
  }

  lemma {:induction false} ModulesArePicked(records: seq<StubRecord>) returns (at: seq<nat>)
    ensures Picks(records, Modules(records), at, false)
  {
    at := [];
    if records != [] {
      var front, last := records[..|records| - 1], records[|records| - 1];
      at := ModulesArePicked(front);
      PickOneMore(front, last, Modules(front), at, false);
      OneMoreRecord(front, last);
      if last.stub.Module? {
        at := at + [|front|];
      }
      assert records == front + [last];
    }
  }

  lemma PickOneMore(front: seq<StubRecord>, r: StubRecord, picked: seq<StubRecord>, at: seq<nat>, classes: bool)
    requires Picks(front, picked, at, classes)
    ensures if classes == r.stub.Class? then Picks(front + [r], picked + [r], at + [|front|], classes)
            else Picks(front + [r], picked, at, classes)
  {}

  // ----- names, packages and modules

  /** The last position of a name, as a search from the end would find it. */
  ghost predicate IsLast(names: seq<string>, name: string, found: Option<nat>) {
    match found
    case None => forall k | 0 <= k < |names| :: names[k] != name
    case Some(k) => k < |names| && names[k] == name && forall j | k < j < |names| :: names[j] != name
  }

  function NamesOf(records: seq<StubRecord>): seq<string> {
    seq(|records|, k requires 0 <= k < |records| => records[k].fqn)
  }

  /** A class name leads to the last class record of that name. */
  lemma ClassLookup(
      i: Interner, records: seq<StubRecord>, names: NameIndex<Symbol>, meta: Store.MetaBlob, disk: seq<Store.DiskRecord>,
      name: string)
    requires IsBuildOf(i, records, names, meta, disk) && i.Ok()
    ensures IsLast(NamesOf(Classes(records)), name, Lookup(names, i.intern(name)))
  {
    var cs := Classes(records);
    InternedApart(i, NamesOf(cs), Fqns(names.entries), names.nameToEntry, name);
  }

  lemma ModuleLookup(
      i: Interner, records: seq<StubRecord>, names: NameIndex<Symbol>, meta: Store.MetaBlob, disk: seq<Store.DiskRecord>,
      name: string)
    requires IsBuildOf(i, records, names, meta, disk) && i.Ok()
    ensures IsLast(NamesOf(Modules(records)), name, LookupModule(names, i.intern(name)))
  {
    var ms := Modules(records);
    InternedApart(i, NamesOf(ms), ModuleNames(names.modules), names.moduleNameToEntry, name);
  }

  lemma InternedApart(i: Interner, names: seq<string>, keys: seq<Symbol>, m: map<Symbol, nat>, name: string)
    requires i.Ok() && |keys| == |names| && forall k | 0 <= k < |keys| :: keys[k] == i.intern(names[k])
    requires LastPositions(m, keys)
    ensures IsLast(names, name, if i.intern(name) in m then Some(m[i.intern(name)]) else None)
  {
    var s := i.intern(name);
    assert i.resolve(s) == name;
    forall k | 0 <= k < |keys| ensures keys[k] == s <==> names[k] == name {
      assert i.resolve(keys[k]) == names[k];
    }
    if s !in m {
      assert s !in keys;
      forall k | 0 <= k < |names| ensures names[k] != name {
        assert keys[k] in keys;
      }
    }
  }

  lemma {:induction false} PositionsIff(keys: seq<Symbol>, key: Symbol)
    ensures forall k: nat :: k in Positions(keys, key) <==> k < |keys| && keys[k] == key
    ensures forall a, b | 0 <= a < b < |Positions(keys, key)| :: Positions(keys, key)[a] < Positions(keys, key)[b]
  {
    if keys != [] {
      PositionsIff(keys[..|keys| - 1], key);
      var before := Positions(keys[..|keys| - 1], key);
      forall a | 0 <= a < |before| ensures before[a] < |keys| - 1 {
        assert before[a] in before;
      }
    }
  }

  /** A package lists, in order, exactly the classes whose records name it. */
  lemma PackageListing(
      i: Interner, records: seq<StubRecord>, names: NameIndex<Symbol>, meta: Store.MetaBlob, disk: seq<Store.DiskRecord>,
      package: string)
    requires IsBuildOf(i, records, names, meta, disk) && i.Ok()
    ensures var listed, cs := ClassesInPackage(names, i.intern(package)), Classes(records);
      && (forall k: nat :: k in listed <==> k < |cs| && cs[k].package == package)
      && (forall a, b | 0 <= a < b < |listed| :: listed[a] < listed[b])
  {
    var cs, keys, s := Classes(records), PackagesOf(names.entries), i.intern(package);
    PositionsIff(keys, s);
    assert i.resolve(s) == package;
    forall k: nat | k < |cs| ensures keys[k] == s <==> cs[k].package == package {
      assert keys[k] == i.intern(cs[k].package);
      assert i.resolve(keys[k]) == cs[k].package;
    }
    if s !in names.packageToEntries {
      assert s !in keys;
      forall k: nat | k < |keys| ensures keys[k] != s {
        assert keys[k] in keys;
      }
    }
  }

  // ----- what an entry says of its class

  /** The class-file flags and the record mark decide what kind of declaration a class is. */
  lemma KindIs(flags: bv16, isRecord: bool)
    ensures var kind, interface_ := KindFromFlags(flags, isRecord), flags & 0x0200 != 0;
      && (kind == AnnotationInterface <==> interface_ && flags & 0x2000 != 0)
      && (kind == InterfaceType <==> interface_ && flags & 0x2000 == 0)
      && (kind == EnumType <==> !interface_ && flags & 0x4000 != 0)
      && (kind == RecordType <==> !interface_ && flags & 0x4000 == 0 && isRecord)
      && (kind == ClassType <==> !interface_ && flags & 0x4000 == 0 && !isRecord)
  {}

  /** `at` lists, in order, the positions of the class types among `ts`, and `names` their names. */
  ghost predicate NamesReferences(ts: seq<TypeRef<Symbol>>, names: seq<Symbol>, at: seq<nat>) {
    && |at| == |names|
    && (forall k | 0 <= k < |at| :: at[k] < |ts| && ts[at[k]].Reference? && ts[at[k]].name == names[k])
    && (forall j, k | 0 <= j < k < |at| :: at[j] < at[k])
    && (forall n: nat | n < |ts| :: n in at <==> ts[n].Reference?)
  }

  lemma {:induction false} ReferenceNamesOfOneMore(ts: seq<TypeRef<Symbol>>, t: TypeRef<Symbol>)
    ensures ReferenceNames(ts + [t]) == ReferenceNames(ts) + (if t.Reference? then [t.name] else [])
  {
    var all := ts + [t];
    if ts == [] {
      assert all[1..] == [];
    } else {
      assert all[0] == ts[0] && all[1..] == ts[1..] + [t];
      ReferenceNamesOfOneMore(ts[1..], t);
    }
  }

  lemma {:induction false} ReferencesAreNamed(ts: seq<TypeRef<Symbol>>) returns (at: seq<nat>)
    ensures NamesReferences(ts, ReferenceNames(ts), at)
  {
    at := [];
    if ts != [] {
      var n := |ts| - 1;
      at := ReferencesAreNamed(ts[..n]);
      NameOneMore(ts[..n], ts[n], ReferenceNames(ts[..n]), at);
      ReferenceNamesOfOneMore(ts[..n], ts[n]);
      assert ts == ts[..n] + [ts[n]];
      if ts[n].Reference? {
        at := at + [n];
      }
    }
  }

  lemma NameOneMore(ts: seq<TypeRef<Symbol>>, t: TypeRef<Symbol>, names: seq<Symbol>, at: seq<nat>)
    requires NamesReferences(ts, names, at)
    ensures if t.Reference? then NamesReferences(ts + [t], names + [t.name], at + [|ts|])
            else NamesReferences(ts + [t], names, at)
  {}

  /** The super class and the interfaces an entry records, as far as they are class types. */
  ghost predicate Describes(i: Interner, e: ClassEntry<Symbol>, r: StubRecord)
    requires r.stub.Class?
  {
    var c := r.stub.class_;
    && i.resolve(e.fqn) == r.fqn && i.resolve(e.package) == r.package && e.owner == r.owner && e.flags == c.flags
    && e.kind == KindFromFlags(c.flags, c.isRecord)
    && (forall name :: e.superClass == Some(name) <==>
          c.superClass.Some? && c.superClass.value.Reference? && c.superClass.value.name == name)
    && exists at :: NamesReferences(c.interfaces, e.interfaces, at)
  }

  /** Entry `k` describes class record `k`, and module entry `j` module record `j`. */
  lemma EntriesDescribeRecords(
      i: Interner, records: seq<StubRecord>, names: NameIndex<Symbol>, meta: Store.MetaBlob, disk: seq<Store.DiskRecord>)
    requires IsBuildOf(i, records, names, meta, disk) && i.Ok()
    ensures var cs, ms := Classes(records), Modules(records);
      && |names.entries| == |cs| && |names.modules| == |ms|
      && (forall k | 0 <= k < |cs| :: Describes(i, names.entries[k], cs[k]))
      && (forall k | 0 <= k < |ms| :: var m := ms[k].stub.module_;
            i.resolve(names.modules[k].name) == ms[k].fqn && names.modules[k].flags == m.flags
            && names.modules[k].version == m.version)
  {
    var cs := Classes(records);
    forall k | 0 <= k < |cs| ensures Describes(i, names.entries[k], cs[k]) {
      var at := ReferencesAreNamed(cs[k].stub.class_.interfaces);
      assert names.entries[k] == EntryOf(i, cs[k]);
    }
  }
}
