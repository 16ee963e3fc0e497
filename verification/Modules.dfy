/**
 Module readability and package visibility of `crates/hir/src/modules.rs`: the
 worklist over a possibly cyclic graph, against the closure that section 7.7.1
 of the Java Language Specification describes.
 */
module Modules {
  import opened Wrappers

  type Symbol = string

  const JAVA_BASE: Symbol := "java.base"
  const ACC_TRANSITIVE: bv16 := 0x0020

  datatype Requires = Requires(name: Symbol, flags: bv16)
  datatype Exports = Exports(package: Symbol, toModules: seq<Symbol>)
  datatype Descriptor = Descriptor(name: Symbol, requirements: seq<Requires>, exported: seq<Exports>)

  datatype Graph = Graph(modules: map<Symbol, Descriptor>, owners: map<Symbol, seq<Descriptor>>)

  // ----- specification

  /** `current` passes `target` on when read from `start`. */
  ghost predicate Leads(g: Graph, start: Symbol, current: Symbol, target: Symbol) {
    && current in g.modules
    && exists r | r in g.modules[current].requirements ::
         r.name == target && (current == start || r.flags & ACC_TRANSITIVE != 0)
  }

  ghost predicate Closed(g: Graph, start: Symbol, s: set<Symbol>) {
    && start in s && JAVA_BASE in s
    && forall m, n :: m in s && Leads(g, start, m, n) ==> n in s
  }

  ghost predicate IsReadable(g: Graph, start: Symbol, s: set<Symbol>) {
    && Closed(g, start, s)
    && forall t: set<Symbol> | Closed(g, start, t) :: s <= t
  }

  /** The set does not depend on the order the queue is worked off. */
  lemma ReadableIsUnique(g: Graph, start: Symbol, s: set<Symbol>, t: set<Symbol>)
    requires IsReadable(g, start, s) && IsReadable(g, start, t)
    ensures s == t
  {}

  // ----- the same set as chains of `requires`

  ghost predicate Chain(g: Graph, start: Symbol, chain: seq<Symbol>) {
    && chain != []
    && (chain[0] == start || chain[0] == JAVA_BASE)
    && forall i | 0 <= i < |chain| - 1 :: Leads(g, start, chain[i], chain[i + 1])
  }

  ghost predicate Reaches(g: Graph, start: Symbol, m: Symbol) {
    exists chain :: Chain(g, start, chain) && chain[|chain| - 1] == m
  }

  lemma {:induction false} ChainStaysInside(g: Graph, start: Symbol, s: set<Symbol>, chain: seq<Symbol>)
    requires Closed(g, start, s) && Chain(g, start, chain)
    ensures chain[|chain| - 1] in s
    decreases |chain|
  {
    if |chain| > 1 {
      var shorter := chain[..|chain| - 1];
      forall i | 0 <= i < |shorter| - 1 ensures Leads(g, start, shorter[i], shorter[i + 1]) {
        assert Leads(g, start, chain[i], chain[i + 1]);
      }
      ChainStaysInside(g, start, s, shorter);
      assert Leads(g, start, chain[|chain| - 2], chain[|chain| - 1]);
    }
  }

  lemma ReachesStep(g: Graph, start: Symbol, m: Symbol, n: Symbol)
    requires Reaches(g, start, m) && Leads(g, start, m, n)
    ensures Reaches(g, start, n)
  {
    var chain :| Chain(g, start, chain) && chain[|chain| - 1] == m;
    assert Chain(g, start, chain + [n]);
    assert (chain + [n])[|chain + [n]| - 1] == n;
  }

  /**
   A module is readable exactly when a chain of `requires` leads to it from the
   start module or `java.base`, transitive everywhere but at the start module.
   */
  lemma ReadableIffReached(g: Graph, start: Symbol, s: set<Symbol>)
    requires IsReadable(g, start, s)
    ensures forall m :: m in s <==> Reaches(g, start, m)
  {
    var reached := set m | m in s && Reaches(g, start, m);
    assert Chain(g, start, [start]) && [start][|[start]| - 1] == start;
    assert Chain(g, start, [JAVA_BASE]) && [JAVA_BASE][|[JAVA_BASE]| - 1] == JAVA_BASE;
    forall m, n | m in reached && Leads(g, start, m, n) ensures n in reached {
      ReachesStep(g, start, m, n);
    }
    assert Closed(g, start, reached);
    forall m | Reaches(g, start, m) ensures m in s {
      var chain :| Chain(g, start, chain) && chain[|chain| - 1] == m;
      ChainStaysInside(g, start, s, chain);
    }
  }

  // ----- the worklist

  /** Every name the graph mentions as a requirement: what bounds the worklist. */
  function Mentioned(g: Graph): set<Symbol> {
    set m, i | m in g.modules && 0 <= i < |g.modules[m].requirements| :: g.modules[m].requirements[i].name
  }

  /** The names among `rs` that pass on: all of them, or only the transitive ones. */
  function Targets(rs: seq<Requires>, all: bool): (ts: seq<Symbol>)
    ensures forall t :: t in ts <==> exists r | r in rs :: r.name == t && (all || r.flags & ACC_TRANSITIVE != 0)
  {
    if rs == [] then []
    else
      assert rs == [rs[0]] + rs[1..];
      (if all || rs[0].flags & ACC_TRANSITIVE != 0 then [rs[0].name] else []) + Targets(rs[1..], all)
  }

  /** What reading `current` adds to the queue, in declaration order. */
  function Contribution(g: Graph, start: Symbol, current: Symbol): (ts: seq<Symbol>)
    ensures forall n :: n in ts <==> Leads(g, start, current, n)
  {
    if current in g.modules then Targets(g.modules[current].requirements, current == start) else []
  }

  /** What has been read or is queued covers the start and every step out of what has been read. */
  ghost predicate Frontier(g: Graph, start: Symbol, readable: set<Symbol>, queued: set<Symbol>) {
    && start in readable + queued && JAVA_BASE in readable + queued
    && (forall m, n :: m in readable && Leads(g, start, m, n) ==> n in readable + queued)
    && forall t: set<Symbol> | Closed(g, start, t) :: readable + queued <= t
  }

  lemma ReadingKeepsFrontier(g: Graph, start: Symbol, readable: set<Symbol>, rest: set<Symbol>, current: Symbol)
    requires Frontier(g, start, readable, rest + {current})
    ensures Frontier(g, start, readable + {current}, rest + Elements(Contribution(g, start, current)))
  {
    forall t: set<Symbol> | Closed(g, start, t)
      ensures readable + {current} + (rest + Elements(Contribution(g, start, current))) <= t
    {
      assert readable + (rest + {current}) <= t;
    }
  }

  lemma ContributionIsMentioned(g: Graph, start: Symbol, current: Symbol)
    ensures Elements(Contribution(g, start, current)) <= Mentioned(g)
  {
    forall n | n in Contribution(g, start, current) ensures n in Mentioned(g) {
      var r :| r in g.modules[current].requirements && r.name == n;
      var i :| 0 <= i < |g.modules[current].requirements| && g.modules[current].requirements[i] == r;
    }
  }

  function Elements<T(==)>(xs: seq<T>): set<T> {
    set x | x in xs
  }

  lemma ElementsAppend<T>(xs: seq<T>, ys: seq<T>)
    ensures Elements(xs + ys) == Elements(xs) + Elements(ys)
  {}

  lemma UnreadShrinks(universe: set<Symbol>, readable: set<Symbol>, current: Symbol)
    requires current in universe && current !in readable
    ensures |universe - (readable + {current})| < |universe - readable|
  {
    assert universe - (readable + {current}) == (universe - readable) - {current};
  }

  lemma PopElements<T>(queue: seq<T>)
    requires queue != []
    ensures Elements(queue) == Elements(queue[..|queue| - 1]) + {queue[|queue| - 1]}
  {
    assert queue == queue[..|queue| - 1] + [queue[|queue| - 1]];
    ElementsAppend(queue[..|queue| - 1], [queue[|queue| - 1]]);
    assert Elements([queue[|queue| - 1]]) == {queue[|queue| - 1]};
  }

  lemma SkippingKeepsFrontier(g: Graph, start: Symbol, readable: set<Symbol>, rest: set<Symbol>, current: Symbol)
    requires Frontier(g, start, readable, rest + {current}) && current in readable
    ensures Frontier(g, start, readable, rest)
  {
    assert readable + (rest + {current}) == readable + rest;
  }

  method ReadableModules(g: Graph, from: Descriptor) returns (readable: set<Symbol>)
    ensures IsReadable(g, from.name, readable)
  {
    var start := from.name;
    readable := {};
    var queue := [start, JAVA_BASE];
    ghost var universe := {start, JAVA_BASE} + Mentioned(g);
    while queue != []
      invariant Elements(queue) <= universe
      invariant Frontier(g, start, readable, Elements(queue))
      decreases |universe - readable|, |queue|
    {
      var current := queue[|queue| - 1];
      var rest := queue[..|queue| - 1];
      PopElements(queue);
      if current in readable {
        SkippingKeepsFrontier(g, start, readable, Elements(rest), current);
        queue := rest;
      } else {
        ReadingKeepsFrontier(g, start, readable, Elements(rest), current);
        ContributionIsMentioned(g, start, current);
        UnreadShrinks(universe, readable, current);
        queue := rest + Contribution(g, start, current);
        ElementsAppend(rest, Contribution(g, start, current));
        readable := readable + {current};
      }
    }
  }

  // ----- package visibility

  /** Exported to everyone, or to `to` in particular. */
  predicate IsPackageExported(m: Descriptor, package: Symbol, to: Option<Symbol>) {
    exists e | e in m.exported :: e.package == package && (e.toModules == [] || (to.Some? && to.value in e.toModules))
  }

  function ModulesForPackage(g: Graph, package: Symbol): seq<Descriptor> {
    if package in g.owners then g.owners[package] else []
  }

  ghost predicate Visible(g: Graph, from: Descriptor, package: Symbol, owner: Descriptor) {
    || owner.name == from.name
    || (Reaches(g, from.name, owner.name) && IsPackageExported(owner, package, Some(from.name)))
  }

  /** A package is visible when it is one's own, or exported to one by a module one reaches. */
  method IsPackageVisible(g: Graph, from: Descriptor, package: Symbol) returns (visible: bool)
    ensures visible <==> exists owner | owner in ModulesForPackage(g, package) :: Visible(g, from, package, owner)
  {
    var readable := ReadableModules(g, from);
    ReadableIffReached(g, from.name, readable);
    visible := exists owner | owner in ModulesForPackage(g, package) ::
      || owner.name == from.name
      || (owner.name in readable && IsPackageExported(owner, package, Some(from.name)));
  }

  /** The `i`-th export opens the package to the module: unqualified to everyone, qualified to those it names. */
  ghost predicate Opens(m: Descriptor, i: nat, package: Symbol, to: Option<Symbol>) {
    && i < |m.exported| && m.exported[i].package == package
    && (|m.exported[i].toModules| == 0
        || exists j | 0 <= j < |m.exported[i].toModules| :: to == Some(m.exported[i].toModules[j]))
  }

  lemma ExportedIff(m: Descriptor, package: Symbol, to: Option<Symbol>)
    ensures IsPackageExported(m, package, to) <==> exists i: nat :: Opens(m, i, package, to)
  {
    if i: nat :| Opens(m, i, package, to) {
      assert m.exported[i] in m.exported;
    }
    if IsPackageExported(m, package, to) {
      var e :| e in m.exported && e.package == package && (e.toModules == [] || (to.Some? && to.value in e.toModules));
      var i: nat :| i < |m.exported| && m.exported[i] == e;
      assert Opens(m, i, package, to);
    }
  }
}
