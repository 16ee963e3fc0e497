/**
 The tier-1 index of `crates/hir/src/index.rs`: maps filled entry by entry, and
 the lookups that read them.
 */
module NameIndexes {
  import opened Wrappers

  datatype ClassKind = ClassType | InterfaceType | EnumType | RecordType | AnnotationInterface

  const ACC_INTERFACE: bv16 := 0x0200
  const ACC_ANNOTATION: bv16 := 0x2000
  const ACC_ENUM: bv16 := 0x4000

  function KindFromFlags(flags: bv16, isRecord: bool): ClassKind {
    if flags & ACC_INTERFACE != 0 then
      if flags & ACC_ANNOTATION != 0 then AnnotationInterface else InterfaceType
    else if flags & ACC_ENUM != 0 then EnumType
    else if isRecord then RecordType
    else ClassType
  }

  /** An entry, in memory with symbols for names and on disk with table indices. */
  datatype ClassEntry<N> = ClassEntry(
    fqn: N, package: N, kind: ClassKind, flags: bv16, superClass: Option<N>, interfaces: seq<N>, owner: Option<N>)

  datatype ModuleEntry<N> = ModuleEntry(name: N, flags: bv16, version: Option<N>)

  datatype NameIndex<N(==)> = NameIndex(
    entries: seq<ClassEntry<N>>,
    nameToEntry: map<N, nat>,
    packageToEntries: map<N, seq<nat>>,
    modules: seq<ModuleEntry<N>>,
    moduleNameToEntry: map<N, nat>)

  /** `m` maps every key of the sequence to its last position. */
  ghost predicate LastPositions<N(!new)>(m: map<N, nat>, keys: seq<N>) {
    && (forall k :: k in m <==> k in keys)
    && (forall k | k in m :: m[k] < |keys| && keys[m[k]] == k && forall j | m[k] < j < |keys| :: keys[j] != k)
  }

  function Positions<N(==)>(keys: seq<N>, key: N): seq<nat> {
    if keys == [] then []
    else Positions(keys[..|keys| - 1], key) + if keys[|keys| - 1] == key then [|keys| - 1] else []
  }

  /** `m` maps every key of the sequence to all of its positions, in order. */
  ghost predicate AllPositions<N(!new)>(m: map<N, seq<nat>>, keys: seq<N>) {
    && (forall k :: k in m <==> k in keys)
    && (forall k | k in m :: m[k] == Positions(keys, k))
  }

  lemma {:induction false} PositionsOfAbsent<N>(keys: seq<N>, key: N)
    requires key !in keys
    ensures Positions(keys, key) == []
  {
    if keys != [] {
      PositionsOfAbsent(keys[..|keys| - 1], key);
    }
  }

  lemma LastPositionsStep<N(!new)>(m: map<N, nat>, keys: seq<N>, key: N)
    requires LastPositions(m, keys)
    ensures LastPositions(m[key := |keys|], keys + [key])
  {}

  lemma AllPositionsStep<N(!new)>(m: map<N, seq<nat>>, keys: seq<N>, key: N)
    requires AllPositions(m, keys)
    ensures AllPositions(m[key := (if key in m then m[key] else []) + [|keys|]], keys + [key])
  {
    var keys' := keys + [key];
    assert keys'[..|keys'| - 1] == keys;
    if key !in m {
      PositionsOfAbsent(keys, key);
    }
  }

  function Fqns<N>(entries: seq<ClassEntry<N>>): seq<N> {
    seq(|entries|, i requires 0 <= i < |entries| => entries[i].fqn)
  }

  function PackagesOf<N>(entries: seq<ClassEntry<N>>): seq<N> {
    seq(|entries|, i requires 0 <= i < |entries| => entries[i].package)
  }

  function ModuleNames<N>(modules: seq<ModuleEntry<N>>): seq<N> {
    seq(|modules|, i requires 0 <= i < |modules| => modules[i].name)
  }

  ghost predicate IsIndexOf<N(!new)>(ix: NameIndex<N>, entries: seq<ClassEntry<N>>, modules: seq<ModuleEntry<N>>) {
    && ix.entries == entries && ix.modules == modules
    && LastPositions(ix.nameToEntry, Fqns(entries))
    && AllPositions(ix.packageToEntries, PackagesOf(entries))
    && LastPositions(ix.moduleNameToEntry, ModuleNames(modules))
  }

  /** The maps cover the first `n` entries. */
  ghost predicate Filled<N(!new)>(m: map<N, nat>, p: map<N, seq<nat>>, entries: seq<ClassEntry<N>>, n: nat)
    requires n <= |entries|
  {
    LastPositions(m, Fqns(entries[..n])) && AllPositions(p, PackagesOf(entries[..n]))
  }

  lemma FillStep<N(!new)>(m: map<N, nat>, p: map<N, seq<nat>>, entries: seq<ClassEntry<N>>, n: nat)
    requires n < |entries| && Filled(m, p, entries, n)
    ensures var e := entries[n];
      Filled(m[e.fqn := n], p[e.package := (if e.package in p then p[e.package] else []) + [n]], entries, n + 1)
  {
    var e := entries[n];
    assert Fqns(entries[..n + 1]) == Fqns(entries[..n]) + [e.fqn];
    assert PackagesOf(entries[..n + 1]) == PackagesOf(entries[..n]) + [e.package];
    LastPositionsStep(m, Fqns(entries[..n]), e.fqn);
    AllPositionsStep(p, PackagesOf(entries[..n]), e.package);
  }

  lemma ModuleStep<N(!new)>(m: map<N, nat>, modules: seq<ModuleEntry<N>>, n: nat)
    requires n < |modules| && LastPositions(m, ModuleNames(modules[..n]))
    ensures LastPositions(m[modules[n].name := n], ModuleNames(modules[..n + 1]))
  {
    assert ModuleNames(modules[..n + 1]) == ModuleNames(modules[..n]) + [modules[n].name];
    LastPositionsStep(m, ModuleNames(modules[..n]), modules[n].name);
  }

  /** Fills the maps; of duplicate names the last one wins. */
  method New<N(==,!new)>(entries: seq<ClassEntry<N>>, modules: seq<ModuleEntry<N>>) returns (ix: NameIndex<N>)
    ensures IsIndexOf(ix, entries, modules)
  {
    var nameToEntry: map<N, nat> := map[];
    var packageToEntries: map<N, seq<nat>> := map[];
    for i := 0 to |entries|
      invariant Filled(nameToEntry, packageToEntries, entries, i)
    {
      FillStep(nameToEntry, packageToEntries, entries, i);
      var entry := entries[i];
      nameToEntry := nameToEntry[entry.fqn := i];
      packageToEntries := packageToEntries[entry.package :=
        (if entry.package in packageToEntries then packageToEntries[entry.package] else []) + [i]];
    }
    assert entries[..|entries|] == entries;
    var moduleNameToEntry: map<N, nat> := map[];
    for i := 0 to |modules|
      invariant LastPositions(moduleNameToEntry, ModuleNames(modules[..i]))
    {
      ModuleStep(moduleNameToEntry, modules, i);
      moduleNameToEntry := moduleNameToEntry[modules[i].name := i];
    }
    assert modules[..|modules|] == modules;
    ix := NameIndex(entries, nameToEntry, packageToEntries, modules, moduleNameToEntry);
  }

  // ----- lookups, as positions

  function Lookup<N(==)>(ix: NameIndex<N>, fqn: N): Option<nat> {
    if fqn in ix.nameToEntry then Some(ix.nameToEntry[fqn]) else None
  }

  function ClassesInPackage<N(==)>(ix: NameIndex<N>, package: N): seq<nat> {
    if package in ix.packageToEntries then ix.packageToEntries[package] else []
  }

  function LookupModule<N(==)>(ix: NameIndex<N>, name: N): Option<nat> {
    if name in ix.moduleNameToEntry then Some(ix.moduleNameToEntry[name]) else None
  }

  // ----- two indexes over the same names spelled differently

  /** The two key sequences spell the same names, each by its own injective spelling. */
  ghost predicate SameNames<N, M>(names: seq<string>, xs: seq<N>, f: string -> N, ys: seq<M>, g: string -> M) {
    && |xs| == |names| && |ys| == |names|
    && forall i | 0 <= i < |names| :: xs[i] == f(names[i]) && ys[i] == g(names[i])
  }

  ghost predicate Injective<N(!new)>(f: string -> N) {
    forall s, t :: f(s) == f(t) ==> s == t
  }

  lemma LastPositionsAgree<N(!new), M(!new)>(
      names: seq<string>, xs: seq<N>, f: string -> N, m: map<N, nat>, ys: seq<M>, g: string -> M, m': map<M, nat>, s: string)
    requires SameNames(names, xs, f, ys, g) && Injective(f) && Injective(g)
    requires LastPositions(m, xs) && LastPositions(m', ys)
    ensures f(s) in m <==> g(s) in m'
    ensures f(s) in m ==> m[f(s)] == m'[g(s)]
  {
    if f(s) in m {
      assert ys[m[f(s)]] == g(s);
    }
    if g(s) in m' {
      assert xs[m'[g(s)]] == f(s);
    }
  }

  lemma {:induction false} PositionsAgree<N(!new), M(!new)>(
      names: seq<string>, xs: seq<N>, f: string -> N, ys: seq<M>, g: string -> M, s: string)
    requires SameNames(names, xs, f, ys, g) && Injective(f) && Injective(g)
    ensures Positions(xs, f(s)) == Positions(ys, g(s))
  {
    if xs != [] {
      var n := |xs| - 1;
      PositionsAgree(names[..n], xs[..n], f, ys[..n], g, s);
    }
  }

  lemma AllPositionsAgree<N(!new), M(!new)>(
      names: seq<string>, xs: seq<N>, f: string -> N, m: map<N, seq<nat>>,
      ys: seq<M>, g: string -> M, m': map<M, seq<nat>>, s: string)
    requires SameNames(names, xs, f, ys, g) && Injective(f) && Injective(g)
    requires AllPositions(m, xs) && AllPositions(m', ys)
    ensures f(s) in m <==> g(s) in m'
    ensures f(s) in m ==> m[f(s)] == m'[g(s)]
  {
    PositionsAgree(names, xs, f, ys, g, s);
    if f(s) in m {
      var i :| 0 <= i < |xs| && xs[i] == f(s);
      assert ys[i] == g(s);
    }
    if g(s) in m' {
      var i :| 0 <= i < |ys| && ys[i] == g(s);
      assert xs[i] == f(s);
    }
  }
}
