/**
 Edits of a node's content, recognised child by child: children a rule hides may come,
 go and change, as long as the others stay as they are up to ranges.
 */
module ContentEdits {
  import opened Wrappers
  import opened SyntaxTree
  import opened AstIdMap
  import opened BodyEdits

  /** How the node at `path` is visited, `None` when it or an ancestor is pruned. */
  function VisitAt<K>(rules: Skeleton<K>, v: Visit<K>, path: seq<nat>): (w: Option<Visit<K>>)
    requires ValidPath(v.node, path)
    ensures w.Some? ==> w.value.node == NodeAt(v.node, path)
    decreases v.node
  {
    if path == [] then Some(v)
    else
      var w := PlanChild(rules, v, v.node.children[path[0]]);
      if w.Some? then VisitAt(rules, w.value, path[1..]) else None
  }

  /** The parent of the edited node. */
  lemma {:induction false} ParentIsValid<K>(n: Node<K>, path: seq<nat>)
    requires path != [] && ValidPath(n, path)
    ensures ValidPath(n, path[..|path| - 1])
    decreases n
  {
    if |path| > 1 {
      assert path[..|path| - 1][1..] == path[1..][..|path[1..]| - 1];
      ParentIsValid(n.children[path[0]], path[1..]);
    }
  }

  /** An edit is a body edit exactly when, at its parent, old and new node show equivalent declarations, or the parent is not visited. */
  lemma {:induction false} BodyEditIff<K>(rules: Skeleton<K>, v: Visit<K>, path: seq<nat>, u: Node<K>)
    requires path != [] && ValidPath(v.node, path) && ValidPath(v.node, path[..|path| - 1])
    ensures var parent := VisitAt(rules, v, path[..|path| - 1]);
      BodyEdit(rules, v, path, u) <==>
        (parent.Some? ==>
          SimilarAll(rules, Shown(rules, parent.value, NodeAt(v.node, path)), Shown(rules, parent.value, u)))
    decreases v.node
  {
    var child := v.node.children[path[0]];
    if |path| == 1 {
      assert path[..0] == [] && path[1..] == [];
      assert NodeAt(v.node, path) == child;
    } else {
      var front := path[..|path| - 1];
      assert path[1..] != [] && front[0] == path[0] && front[1..] == path[1..][..|path[1..]| - 1];
      var w := PlanChild(rules, v, child);
      if w.Some? {
        BodyEditIff(rules, w.value, path[1..], u);
      }
    }
  }

  // ----- declarations that stay

  /** The two nodes show the same declarations, visited alike, up to ranges. */
  ghost predicate ShowsAlike<K>(rules: Skeleton<K>, parent: Visit<K>, t: Node<K>, u: Node<K>) {
    var es, es' := Shown(rules, parent, t), Shown(rules, parent, u);
    && |es| == |es'|
    && forall i | 0 <= i < |es| :: es'[i] == es[i].(node := es'[i].node) && SameUpToRanges(es[i].node, es'[i].node)
  }

  /** Whatever happens around the declarations a node shows: if they stay, it is a body edit. */
  lemma ShowingAlikeIsBodyEdit<K>(rules: Skeleton<K>, v: Visit<K>, path: seq<nat>, u: Node<K>)
    requires path != [] && ValidPath(v.node, path) && ValidPath(v.node, path[..|path| - 1])
    requires var parent := VisitAt(rules, v, path[..|path| - 1]);
      parent.Some? ==> ShowsAlike(rules, parent.value, NodeAt(v.node, path), u)
    ensures BodyEdit(rules, v, path, u)
  {
    var parent := VisitAt(rules, v, path[..|path| - 1]);
    if parent.Some? {
      var es, es' := Shown(rules, parent.value, NodeAt(v.node, path)), Shown(rules, parent.value, u);
      forall i | 0 <= i < |es| ensures Similar(rules, es[i], es'[i]) {
        RangesDoNotMatter(rules, es[i], es'[i].node);
      }
    }
    BodyEditIff(rules, v, path, u);
  }

  // ----- children that show nothing

  function ShownBy<K>(rules: Skeleton<K>, v: Visit<K>, kids: seq<Node<K>>): seq<Visit<K>> {
    if kids == [] then [] else Shown(rules, v, kids[0]) + ShownBy(rules, v, kids[1..])
  }

  lemma {:induction false} FrontIsShownByChildren<K>(rules: Skeleton<K>, v: Visit<K>, k: nat)
    requires k <= |v.node.children|
    ensures EscapesFrom(rules, v, k) == ShownBy(rules, v, v.node.children[k..])
    decreases |v.node.children| - k
  {
    var kids := v.node.children[k..];
    if k < |v.node.children| {
      FrontIsShownByChildren(rules, v, k + 1);
      assert kids[0] == v.node.children[k] && kids[1..] == v.node.children[k + 1..];
    }
  }

  /** The children that are not hidden. */
  function Loud<K>(hidden: Node<K> -> bool, kids: seq<Node<K>>): seq<Node<K>> {
    if kids == [] then []
    else (if hidden(kids[0]) then [] else [kids[0]]) + Loud(hidden, kids[1..])
  }

  /** Under every node of the kind a hidden child shows nothing. */
  ghost predicate Hides<K(!new)>(rules: Skeleton<K>, kind: K, hidden: Node<K> -> bool) {
    forall v: Visit<K>, c: Node<K> :: v.node.kind == kind && hidden(c) ==> Shown(rules, v, c) == []
  }

  lemma {:induction false} AllHidden<K>(hidden: Node<K> -> bool, kids: seq<Node<K>>)
    requires forall i | 0 <= i < |kids| :: hidden(kids[i])
    ensures Loud(hidden, kids) == []
  {
    if kids != [] {
      AllHidden(hidden, kids[1..]);
    }
  }

  lemma {:induction false} LoudChildrenShow<K(!new)>(rules: Skeleton<K>, v: Visit<K>, hidden: Node<K> -> bool, kids: seq<Node<K>>)
    requires Hides(rules, v.node.kind, hidden)
    ensures ShownBy(rules, v, kids) == ShownBy(rules, v, Loud(hidden, kids))
  {
    if kids != [] {
      var rest := Loud(hidden, kids[1..]);
      LoudChildrenShow(rules, v, hidden, kids[1..]);
      if hidden(kids[0]) {
        assert Shown(rules, v, kids[0]) == [];
        assert Loud(hidden, kids) == rest;
      } else {
        assert ([kids[0]] + rest)[1..] == rest;
      }
    }
  }

  predicate AllUpToRanges<K(==)>(xs: seq<Node<K>>, ys: seq<Node<K>>) {
    |xs| == |ys| && forall i | 0 <= i < |xs| :: SameUpToRanges(xs[i], ys[i])
  }

  lemma {:induction false} SameChildrenShowAlike<K>(rules: Skeleton<K>, v: Visit<K>, v': Visit<K>, xs: seq<Node<K>>, ys: seq<Node<K>>)
    requires v' == v.(node := v'.node) && v.node.kind == v'.node.kind && AllUpToRanges(xs, ys)
    ensures SimilarAll(rules, ShownBy(rules, v, xs), ShownBy(rules, v', ys))
  {
    if xs != [] {
      var w := PlanChild(rules, v, xs[0]);
      if w.Some? {
        RangesDoNotMatter(rules, w.value, ys[0]);
      }
      ShownOfSimilar(rules, v, v', xs[0], ys[0]);
      SameChildrenShowAlike(rules, v, v', xs[1..], ys[1..]);
      SimilarAllAppend(rules, Shown(rules, v, xs[0]), ShownBy(rules, v, xs[1..]), Shown(rules, v', ys[0]), ShownBy(rules, v', ys[1..]));
    }
  }

  /** Nodes of one kind whose children differ in hidden ones alone, and in ranges. */
  predicate SameBesides<K(==)>(hidden: Node<K> -> bool, t: Node<K>, u: Node<K>) {
    t.kind == u.kind && AllUpToRanges(Loud(hidden, t.children), Loud(hidden, u.children))
  }

  lemma SameBesidesIsSimilar<K(!new)>(rules: Skeleton<K>, v: Visit<K>, u: Node<K>, hidden: Node<K> -> bool)
    requires Hides(rules, u.kind, hidden) && SameBesides(hidden, v.node, u)
    ensures Similar(rules, v, v.(node := u))
  {
    var v' := v.(node := u);
    var kids, kids' := v.node.children, u.children;
    FrontIsShownByChildren(rules, v, 0);
    FrontIsShownByChildren(rules, v', 0);
    assert kids[0..] == kids && kids'[0..] == kids';
    LoudChildrenShow(rules, v, hidden, kids);
    LoudChildrenShow(rules, v', hidden, kids');
    SameChildrenShowAlike(rules, v, v', Loud(hidden, kids), Loud(hidden, kids'));
    SimilarByFronts(rules, v, v');
  }

  lemma SimilarByFronts<K>(rules: Skeleton<K>, v: Visit<K>, v': Visit<K>)
    requires v.node.kind == v'.node.kind && SimilarAll(rules, Front(rules, v), Front(rules, v'))
    ensures Similar(rules, v, v')
  {}

  /** Adding, dropping and changing hidden children is a body edit, however the node is visited. */
  lemma ContentEditIsBodyEdit<K(!new)>(rules: Skeleton<K>, v: Visit<K>, path: seq<nat>, u: Node<K>, hidden: Node<K> -> bool)
    requires path != [] && ValidPath(v.node, path)
    requires Hides(rules, u.kind, hidden) && SameBesides(hidden, NodeAt(v.node, path), u)
    ensures BodyEdit(rules, v, path, u)
  {
    ParentIsValid(v.node, path);
    var parent := VisitAt(rules, v, path[..|path| - 1]);
    if parent.Some? {
      var t := NodeAt(v.node, path);
      var w := PlanChild(rules, parent.value, t);
      if w.Some? {
        SameBesidesIsSimilar(rules, w.value, u, hidden);
      }
      ShownOfSimilar(rules, parent.value, parent.value, t, u);
    }
    BodyEditIff(rules, v, path, u);
  }

  lemma ContentEditKeepsIds<K(!new)>(
      rules: Skeleton<K>, root: Node<K>, path: seq<nat>, u: Node<K>, root': Node<K>, hidden: Node<K> -> bool,
      m: IdMap<K>, m': IdMap<K>)
    requires path != [] && ValidPath(root, path)
    requires Hides(rules, u.kind, hidden) && SameBesides(hidden, NodeAt(root, path), u)
    requires SameUpToRanges(ReplaceAt(root, path, u), root')
    requires m.arena == Preorder(rules, root) && m'.arena == Preorder(rules, root')
    ensures IdSequence(m) == IdSequence(m')
  {
    ContentEditIsBodyEdit(rules, Root(root), path, u, hidden);
    BodyEditKeepsIds(rules, root, path, u, root', m, m');
  }
}
