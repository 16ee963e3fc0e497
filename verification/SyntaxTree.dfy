/**
 Syntax trees as the id map sees them: a kind, a text range and child nodes.
 Tokens are left implicit; a token that covers a range resolves to its parent
 node, which is where a descent through nodes alone stops as well.
 */
module SyntaxTree {
  import opened Wrappers

  datatype Range = Range(start: nat, end: nat) {
    predicate Contains(other: Range) {
      start <= other.start && other.end <= end
    }
  }

  datatype Node<K> = Node(kind: K, range: Range, children: seq<Node<K>>)

  /** A pointer to a node: its range and kind. */
  datatype NodePtr<K> = NodePtr(range: Range, kind: K)

  function PtrOf<K>(n: Node<K>): NodePtr<K> {
    NodePtr(n.range, n.kind)
  }

  // ----- positions

  predicate ValidPath<K>(n: Node<K>, path: seq<nat>)
    decreases n
  {
    path != [] ==> path[0] < |n.children| && ValidPath(n.children[path[0]], path[1..])
  }

  function NodeAt<K>(n: Node<K>, path: seq<nat>): Node<K>
    requires ValidPath(n, path)
    decreases n
  {
    if path == [] then n else NodeAt(n.children[path[0]], path[1..])
  }

  lemma {:induction false} PathConcat<K>(n: Node<K>, p: seq<nat>, q: seq<nat>)
    requires ValidPath(n, p)
    ensures ValidPath(n, p + q) <==> ValidPath(NodeAt(n, p), q)
    ensures ValidPath(n, p + q) ==> NodeAt(n, p + q) == NodeAt(NodeAt(n, p), q)
    decreases n
  {
    if p == [] {
      assert p + q == q;
    } else {
      assert (p + q)[1..] == p[1..] + q;
      PathConcat(n.children[p[0]], p[1..], q);
    }
  }

  /** Children lie inside their parent, in source order, without overlap. */
  predicate Nested<K>(n: Node<K>)
    decreases n
  {
    && n.range.start <= n.range.end
    && (forall i | 0 <= i < |n.children| :: n.range.Contains(n.children[i].range) && Nested(n.children[i]))
    && (forall i, j | 0 <= i < j < |n.children| :: n.children[i].range.end <= n.children[j].range.start)
  }

  lemma {:induction false} NestedBelow<K>(n: Node<K>, path: seq<nat>)
    requires Nested(n) && ValidPath(n, path)
    ensures Nested(NodeAt(n, path)) && n.range.Contains(NodeAt(n, path).range)
    decreases n
  {
    if path != [] {
      NestedBelow(n.children[path[0]], path[1..]);
    }
  }

  // ----- resolving a pointer: covering element, then ancestor walk

  function FirstCovering<K>(kids: seq<Node<K>>, range: Range): (i: nat)
    ensures i <= |kids|
    ensures i < |kids| ==> kids[i].range.Contains(range)
    ensures forall j | 0 <= j < i :: !kids[j].range.Contains(range)
  {
    if kids == [] || kids[0].range.Contains(range) then 0 else 1 + FirstCovering(kids[1..], range)
  }

  /** The position of the deepest node covering `range`. */
  function Covering<K>(n: Node<K>, range: Range): (path: seq<nat>)
    ensures ValidPath(n, path)
    decreases n
  {
    var i := FirstCovering(n.children, range);
    if i == |n.children| then [] else [i] + Covering(n.children[i], range)
  }

  /** The closest ancestor-or-self of `path` with the given kind. */
  function AncestorOfKind<K(==)>(root: Node<K>, path: seq<nat>, kind: K): (r: Option<seq<nat>>)
    requires ValidPath(root, path)
    decreases |path|
  {
    if NodeAt(root, path).kind == kind then Some(path)
    else if path == [] then None
    else
      PrefixIsValid(root, path, |path| - 1);
      AncestorOfKind(root, path[..|path| - 1], kind)
  }

  lemma {:induction false} PrefixIsValid<K>(root: Node<K>, path: seq<nat>, k: nat)
    requires ValidPath(root, path) && k <= |path|
    ensures ValidPath(root, path[..k])
    decreases root
  {
    if k > 0 {
      assert path[..k][1..] == path[1..][..k - 1];
      PrefixIsValid(root.children[path[0]], path[1..], k - 1);
    }
  }

  function TryToNode<K(==)>(root: Node<K>, ptr: NodePtr<K>): Option<seq<nat>> {
    AncestorOfKind(root, Covering(root, ptr.range), ptr.kind)
  }

  // ----- when the walk comes back to the node it started from

  /** Some node strictly below `path` has the very same pointer. */
  ghost predicate Shadowed<K(!new)>(root: Node<K>, path: seq<nat>)
    requires ValidPath(root, path)
  {
    exists q: seq<nat> :: SamePtrBelow(root, path, q)
  }

  ghost predicate SamePtrBelow<K>(root: Node<K>, path: seq<nat>, q: seq<nat>)
    requires ValidPath(root, path)
  {
    q != [] && ValidPath(NodeAt(root, path), q) && PtrOf(NodeAt(NodeAt(root, path), q)) == PtrOf(NodeAt(root, path))
  }

  lemma OnlyChildCovering<K>(n: Node<K>, c: nat, range: Range)
    requires Nested(n) && c < |n.children| && n.children[c].range.Contains(range)
    requires range.start < range.end
    ensures Covering(n, range) == [c] + Covering(n.children[c], range)
  {
    var i := FirstCovering(n.children, range);
    assert i == c;
  }

  lemma PathStep(path: seq<nat>, below: seq<nat>)
    requires path != []
    ensures [path[0]] + (path[1..] + below) == path + below
  {}

  lemma {:induction false} CoveringPassesThrough<K>(root: Node<K>, path: seq<nat>, range: Range)
    requires Nested(root) && ValidPath(root, path)
    requires range == NodeAt(root, path).range && range.start < range.end
    ensures Covering(root, range) == path + Covering(NodeAt(root, path), range)
    decreases root
  {
    var below := Covering(NodeAt(root, path), range);
    if path != [] {
      var child := root.children[path[0]];
      NestedBelow(child, path[1..]);
      OnlyChildCovering(root, path[0], range);
      CoveringPassesThrough(child, path[1..], range);
      PathStep(path, below);
    }
  }

  /** Below a node, everything covering its range has exactly its range. */
  lemma CoveringKeepsRange<K>(n: Node<K>, k: nat)
    requires Nested(n) && n.range.start < n.range.end && k <= |Covering(n, n.range)|
    ensures ValidPath(n, Covering(n, n.range)[..k])
    ensures NodeAt(n, Covering(n, n.range)[..k]).range == n.range
  {
    var path := Covering(n, n.range);
    PrefixIsValid(n, path, k);
    NestedBelow(n, path[..k]);
    CoveringCovers(n, n.range, k);
  }

  lemma {:induction false} CoveringCovers<K>(n: Node<K>, range: Range, k: nat)
    requires n.range.Contains(range) && k <= |Covering(n, range)|
    ensures ValidPath(n, Covering(n, range)[..k])
    ensures NodeAt(n, Covering(n, range)[..k]).range.Contains(range)
    decreases n
  {
    if k > 0 {
      var i := FirstCovering(n.children, range);
      CoveringCovers(n.children[i], range, k - 1);
      assert Covering(n, range)[..k][1..] == Covering(n.children[i], range)[..k - 1];
    }
  }

  /** Every non-empty descendant with the node's own range lies on the covering path. */
  lemma {:induction false} SameRangeIsOnCovering<K>(n: Node<K>, q: seq<nat>)
    requires Nested(n) && ValidPath(n, q)
    requires NodeAt(n, q).range == n.range && n.range.start < n.range.end
    ensures q <= Covering(n, n.range)
  {
    CoveringPassesThrough(n, q, n.range);
  }

  lemma {:induction false} AncestorIsClosest<K>(root: Node<K>, path: seq<nat>, kind: K)
    requires ValidPath(root, path)
    ensures var r := AncestorOfKind(root, path, kind);
            r.Some? ==> r.value <= path && ValidPath(root, r.value) && NodeAt(root, r.value).kind == kind
    ensures var r := AncestorOfKind(root, path, kind);
            forall k: nat | k <= |path| :: ValidPath(root, path[..k])
              && (NodeAt(root, path[..k]).kind == kind ==> r.Some? && k <= |r.value|)
    decreases |path|
  {
    forall k: nat | k <= |path| ensures ValidPath(root, path[..k]) {
      PrefixIsValid(root, path, k);
    }
    assert path[..|path|] == path;
    if NodeAt(root, path).kind != kind && path != [] {
      var shorter := path[..|path| - 1];
      AncestorIsClosest(root, shorter, kind);
      forall k: nat | k < |path| ensures path[..k] == shorter[..k] {}
    }
  }

  lemma PrefixTail(path: seq<nat>, down: seq<nat>, r: seq<nat>)
    requires r <= path + down && |path| <= |r|
    ensures r == path + r[|path|..] && r[|path|..] == down[..|r| - |path|]
  {}

  lemma ResolvesAtOrBelow<K>(root: Node<K>, path: seq<nat>) returns (q: seq<nat>)
    requires Nested(root) && ValidPath(root, path)
    requires NodeAt(root, path).range.start < NodeAt(root, path).range.end
    ensures TryToNode(root, PtrOf(NodeAt(root, path))) == Some(path + q)
    ensures q != [] ==> SamePtrBelow(root, path, q)
  {
    var n := NodeAt(root, path);
    var down := Covering(n, n.range);
    var all := Covering(root, n.range);
    CoveringPassesThrough(root, path, n.range);
    AncestorIsClosest(root, all, n.kind);
    assert all[..|path|] == path;
    var r := AncestorOfKind(root, all, n.kind).value;
    q := r[|path|..];
    PrefixTail(path, down, r);
    NestedBelow(root, path);
    CoveringKeepsRange(n, |q|);
    PathConcat(root, path, q);
  }

  lemma ResolvesBelowShadow<K>(root: Node<K>, path: seq<nat>, q: seq<nat>)
    requires Nested(root) && ValidPath(root, path) && SamePtrBelow(root, path, q)
    requires NodeAt(root, path).range.start < NodeAt(root, path).range.end
    ensures TryToNode(root, PtrOf(NodeAt(root, path))) != Some(path)
  {
    var n := NodeAt(root, path);
    var all := Covering(root, n.range);
    CoveringPassesThrough(root, path, n.range);
    NestedBelow(root, path);
    SameRangeIsOnCovering(n, q);
    assert all[..|path + q|] == path + q;
    PathConcat(root, path, q);
    AncestorIsClosest(root, all, n.kind);
  }

  /**
   In a nested tree the pointer of a non-empty node resolves to that very node
   exactly when no node below it carries the same range and kind.
   */
  lemma PtrResolvesIffNotShadowed<K(!new)>(root: Node<K>, path: seq<nat>)
    requires Nested(root) && ValidPath(root, path)
    requires NodeAt(root, path).range.start < NodeAt(root, path).range.end
    ensures TryToNode(root, PtrOf(NodeAt(root, path))) == Some(path) <==> !Shadowed(root, path)
    ensures TryToNode(root, PtrOf(NodeAt(root, path))).Some?
  {
    var q := ResolvesAtOrBelow(root, path);
    if q == [] {
      assert path + q == path;
    }
    if Shadowed(root, path) {
      var s :| SamePtrBelow(root, path, s);
      ResolvesBelowShadow(root, path, s);
    }
  }
}
