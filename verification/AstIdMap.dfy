/**
 The declaration-skeleton walk of `crates/hir-expand/src/ast_id_map.rs`: a
 stack DFS that allocates an id per indexed node, against the recursive
 pre-order it stands for.
 */
module AstIdMap {
  import opened Wrappers
  import opened Arenas
  import opened SyntaxTree

  /**
   The per-language rules. `plan` decides a child by the node's kind, the
   node's parent kind, the flag the node is visited under and the child's kind:
   `None` prunes the child, `Some(flag)` visits it, `true` meaning body content.
   */
  datatype Skeleton<!K> = Skeleton(
    isIndexable: K -> bool,
    anchorsInBody: K -> bool,
    plan: (K, Option<K>, bool, K) -> Option<bool>)

  datatype Visit<K> = Visit(node: Node<K>, parent: Option<K>, body: bool)

  datatype IdMap<K(==)> = IdMap(arena: seq<NodePtr<K>>, index: map<NodePtr<K>, nat>)

  function Root<K>(root: Node<K>): Visit<K> {
    Visit(root, None, false)
  }

  // ----- specification: the recursive pre-order of the planned tree

  function PlanChild<K>(rules: Skeleton<K>, v: Visit<K>, child: Node<K>): (w: Option<Visit<K>>)
    ensures w.Some? ==> w.value.node == child
  {
    match rules.plan(v.node.kind, v.parent, v.body, child.kind)
    case None => None
    case Some(flag) => Some(Visit(child, Some(v.node.kind), flag))
  }

  /** A node before everything planned below it, children in source order. */
  function Walk<K>(rules: Skeleton<K>, v: Visit<K>): (vs: seq<Visit<K>>)
    decreases v.node, 1
  {
    [v] + WalkFrom(rules, v, 0)
  }

  function WalkFrom<K>(rules: Skeleton<K>, v: Visit<K>, k: nat): seq<Visit<K>>
    decreases v.node, 0, |v.node.children| - k
  {
    if k >= |v.node.children| then []
    else
      var w := PlanChild(rules, v, v.node.children[k]);
      (if w.Some? then Walk(rules, w.value) else []) + WalkFrom(rules, v, k + 1)
  }

  predicate IsIndexed<K>(rules: Skeleton<K>, v: Visit<K>) {
    (!v.body || rules.anchorsInBody(v.node.kind)) && rules.isIndexable(v.node.kind)
  }

  /** The pointers of the indexed visits. */
  function Pointers<K>(rules: Skeleton<K>, vs: seq<Visit<K>>): seq<NodePtr<K>> {
    if vs == [] then []
    else (if IsIndexed(rules, vs[0]) then [PtrOf(vs[0].node)] else []) + Pointers(rules, vs[1..])
  }

  function Preorder<K>(rules: Skeleton<K>, root: Node<K>): seq<NodePtr<K>> {
    Pointers(rules, Walk(rules, Root(root)))
  }

  lemma {:induction false} PointersAppend<K>(rules: Skeleton<K>, xs: seq<Visit<K>>, ys: seq<Visit<K>>)
    ensures Pointers(rules, xs + ys) == Pointers(rules, xs) + Pointers(rules, ys)
  {
    if xs == [] {
      assert xs + ys == ys;
    } else {
      assert (xs + ys)[1..] == xs[1..] + ys;
      PointersAppend(rules, xs[1..], ys);
    }
  }

  // ----- the stack

  /** The children to visit, in source order. */
  function Plan<K>(rules: Skeleton<K>, v: Visit<K>, k: nat): seq<Visit<K>>
    decreases |v.node.children| - k
  {
    if k >= |v.node.children| then []
    else
      var w := PlanChild(rules, v, v.node.children[k]);
      (if w.Some? then [w.value] else []) + Plan(rules, v, k + 1)
  }

  function Reversed<T>(xs: seq<T>): (rs: seq<T>)
    ensures |rs| == |xs| && forall i | 0 <= i < |rs| :: rs[i] == xs[|xs| - 1 - i]
  {
    seq(|xs|, i requires 0 <= i < |xs| => xs[|xs| - 1 - i])
  }

  /** The visits a list of frames stands for, first frame first. */
  function WalkAll<K>(rules: Skeleton<K>, ws: seq<Visit<K>>): seq<Visit<K>> {
    if ws == [] then [] else Walk(rules, ws[0]) + WalkAll(rules, ws[1..])
  }

  lemma {:induction false} WalkAllAppend<K>(rules: Skeleton<K>, xs: seq<Visit<K>>, ys: seq<Visit<K>>)
    ensures WalkAll(rules, xs + ys) == WalkAll(rules, xs) + WalkAll(rules, ys)
  {
    if xs == [] {
      assert xs + ys == ys;
    } else {
      assert (xs + ys)[1..] == xs[1..] + ys;
      WalkAllAppend(rules, xs[1..], ys);
    }
  }

  lemma {:induction false} PlanWalks<K>(rules: Skeleton<K>, v: Visit<K>, k: nat)
    ensures WalkAll(rules, Plan(rules, v, k)) == WalkFrom(rules, v, k)
    decreases |v.node.children| - k
  {
    if k < |v.node.children| {
      PlanWalks(rules, v, k + 1);
      var w := PlanChild(rules, v, v.node.children[k]);
      if w.Some? {
        assert Plan(rules, v, k)[1..] == Plan(rules, v, k + 1);
      } else {
        assert Plan(rules, v, k) == Plan(rules, v, k + 1);
      }
    }
  }

  /** A frame stands for its own visit and then for its plan. */
  lemma PopAndPush<K>(rules: Skeleton<K>, v: Visit<K>, rest: seq<Visit<K>>)
    ensures WalkAll(rules, [v] + rest) == [v] + WalkAll(rules, Plan(rules, v, 0) + rest)
  {
    PlanWalks(rules, v, 0);
    WalkAllAppend(rules, Plan(rules, v, 0), rest);
    assert ([v] + rest)[1..] == rest;
  }

  /** The last frame is popped first, so a plan pushed in reverse is walked in source order. */
  lemma ReversedPush<T>(rest: seq<T>, ws: seq<T>)
    ensures Reversed(rest + Reversed(ws)) == ws + Reversed(rest)
  {}

  lemma IndexedStep<K>(rules: Skeleton<K>, visited: seq<Visit<K>>, v: Visit<K>)
    ensures Pointers(rules, visited + [v])
         == Pointers(rules, visited) + if IsIndexed(rules, v) then [PtrOf(v.node)] else []
  {
    PointersAppend(rules, visited, [v]);
    assert [v][1..] == [];
  }

  // ----- the index

  /** The index holds exactly the pointers of the arena, each at its last position. */
  ghost predicate Indexes<K(!new)>(index: map<NodePtr<K>, nat>, arena: seq<NodePtr<K>>) {
    && (forall ptr :: ptr in index <==> ptr in arena)
    && (|arena| <= ID_SPACE ==>
          forall ptr | ptr in index ::
            && index[ptr] < |arena| && arena[index[ptr]] == ptr
            && forall j | index[ptr] < j < |arena| :: arena[j] != ptr)
  }

  ghost predicate Distinct<T>(xs: seq<T>) {
    forall i, j | 0 <= i < j < |xs| :: xs[i] != xs[j]
  }

  lemma IndexInsert<K(!new)>(index: map<NodePtr<K>, nat>, arena: seq<NodePtr<K>>, ptr: NodePtr<K>)
    requires Indexes(index, arena)
    ensures Indexes(index[ptr := |arena| % ID_SPACE], arena + [ptr])
  {}

  /** What one turn of the loop leaves to be visited. */
  lemma TurnVisits<K>(rules: Skeleton<K>, stack: seq<Visit<K>>, visited: seq<Visit<K>>, v: Visit<K>, rest: seq<Visit<K>>)
    requires stack == rest + [v]
    ensures var stack' := rest + Reversed(Plan(rules, v, 0));
      && visited + WalkAll(rules, Reversed(stack)) == (visited + [v]) + WalkAll(rules, Reversed(stack'))
      && |WalkAll(rules, Reversed(stack'))| < |WalkAll(rules, Reversed(stack))|
  {
    assert Reversed(stack) == [v] + Reversed(rest);
    PopAndPush(rules, v, Reversed(rest));
    ReversedPush(rest, Plan(rules, v, 0));
  }

  /** Runs the walk: ids are handed out in pre-order, densely from 0. */
  method Build<K(==,!new)>(rules: Skeleton<K>, root: Node<K>) returns (m: IdMap<K>)
    ensures m.arena == Preorder(rules, root)
    ensures Indexes(m.index, m.arena)
  {
    var arena := new Arena<NodePtr<K>>();
    var index: map<NodePtr<K>, nat> := map[];
    var stack := [Root(root)];
    ghost var visited: seq<Visit<K>> := [];
    assert Reversed(stack) == [Root(root)];
    assert WalkAll(rules, [Root(root)]) == Walk(rules, Root(root)) + WalkAll(rules, []);
    while stack != []
      invariant visited + WalkAll(rules, Reversed(stack)) == Walk(rules, Root(root))
      invariant arena.data == Pointers(rules, visited)
      invariant Indexes(index, arena.data)
      decreases |WalkAll(rules, Reversed(stack))|
    {
      var v := stack[|stack| - 1];
      var rest := stack[..|stack| - 1];
      TurnVisits(rules, stack, visited, v, rest);
      IndexedStep(rules, visited, v);
      if IsIndexed(rules, v) {
        var ptr := PtrOf(v.node);
        IndexInsert(index, arena.data, ptr);
        var id := arena.Alloc(ptr);
        index := index[ptr := id];
      }
      stack := rest + Reversed(Plan(rules, v, 0));
      visited := visited + [v];
    }
    assert visited == Walk(rules, Root(root));
    m := IdMap(arena.data, index);
  }

  // ----- lookups

  function AstId<K(==)>(m: IdMap<K>, ptr: NodePtr<K>): Option<nat> {
    if ptr in m.index then Some(m.index[ptr]) else None
  }

  /** `None` for a placeholder or an id out of range. */
  function TryGet<K(==)>(m: IdMap<K>, id: nat): Option<NodePtr<K>> {
    if id < |m.arena| then Some(m.arena[id]) else None
  }

  /** With distinct pointers the two halves of a map are inverse to each other. */
  lemma ArenaAndIndexAreInverse<K(!new)>(m: IdMap<K>, ptr: NodePtr<K>, id: nat)
    requires Indexes(m.index, m.arena) && Distinct(m.arena) && |m.arena| <= ID_SPACE
    ensures AstId(m, ptr) == Some(id) <==> TryGet(m, id) == Some(ptr)
  {
    if TryGet(m, id) == Some(ptr) {
      assert ptr in m.arena;
    }
  }

  /** The (kind, id) pairs an item tree stores: what body edits must not move. */
  function IdSequence<K(==)>(m: IdMap<K>): seq<(K, nat)> {
    seq(|m.arena|, i requires 0 <= i < |m.arena| => (m.arena[i].kind, i))
  }
}
