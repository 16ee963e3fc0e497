/**
 Why body edits do not move ids: the indexed kinds depend only on the
 declarations a tree shows, and an edit inside body content shows none of its own.
 */
module BodyEdits {
  import opened Wrappers
  import opened SyntaxTree
  import opened AstIdMap

  // ----- what a visited subtree shows

  predicate Exposed<K>(rules: Skeleton<K>, v: Visit<K>) {
    !v.body || rules.anchorsInBody(v.node.kind)
  }

  /** The topmost nodes, from `v` down, that leave body content or anchor inside it. */
  function Escapes<K>(rules: Skeleton<K>, v: Visit<K>): (es: seq<Visit<K>>)
    ensures forall i | 0 <= i < |es| :: es[i].node == v.node || es[i].node < v.node
    decreases v.node, 1
  {
    if Exposed(rules, v) then [v] else EscapesFrom(rules, v, 0)
  }

  function EscapesFrom<K>(rules: Skeleton<K>, v: Visit<K>, k: nat): (es: seq<Visit<K>>)
    ensures forall i | 0 <= i < |es| :: es[i].node < v.node
    decreases v.node, 0, |v.node.children| - k
  {
    if k >= |v.node.children| then []
    else
      var w := PlanChild(rules, v, v.node.children[k]);
      (if w.Some? then Escapes(rules, w.value) else []) + EscapesFrom(rules, v, k + 1)
  }

  /** The exposed nodes directly below `v`, whatever body content lies between. */
  function Front<K>(rules: Skeleton<K>, v: Visit<K>): (es: seq<Visit<K>>)
    ensures forall i | 0 <= i < |es| :: es[i].node < v.node
  {
    EscapesFrom(rules, v, 0)
  }

  /** What a child contributes to the front of its parent: nothing when it is pruned. */
  function Shown<K>(rules: Skeleton<K>, v: Visit<K>, child: Node<K>): seq<Visit<K>> {
    var w := PlanChild(rules, v, child);
    if w.Some? then Escapes(rules, w.value) else []
  }

  /** Same kind, and equivalent declarations in the same order right below. */
  predicate Similar<K(==)>(rules: Skeleton<K>, v: Visit<K>, v': Visit<K>)
    decreases v.node
  {
    var es, es' := Front(rules, v), Front(rules, v');
    && v.node.kind == v'.node.kind
    && |es| == |es'|
    && forall i | 0 <= i < |es| :: Similar(rules, es[i], es'[i])
  }

  predicate SimilarAll<K(==)>(rules: Skeleton<K>, es: seq<Visit<K>>, es': seq<Visit<K>>) {
    |es| == |es'| && forall i | 0 <= i < |es| :: Similar(rules, es[i], es'[i])
  }

  lemma SimilarAllAppend<K>(rules: Skeleton<K>, xs: seq<Visit<K>>, ys: seq<Visit<K>>, xs': seq<Visit<K>>, ys': seq<Visit<K>>)
    requires SimilarAll(rules, xs, xs') && SimilarAll(rules, ys, ys')
    ensures SimilarAll(rules, xs + ys, xs' + ys')
  {}

  // ----- similar trees carry the same ids

  function Kinds<K>(ptrs: seq<NodePtr<K>>): seq<K> {
    seq(|ptrs|, i requires 0 <= i < |ptrs| => ptrs[i].kind)
  }

  /** The kinds of the nodes indexed from `v` down. */
  function KindSequence<K>(rules: Skeleton<K>, v: Visit<K>): seq<K> {
    Kinds(Pointers(rules, Walk(rules, v)))
  }

  function KindSequences<K>(rules: Skeleton<K>, vs: seq<Visit<K>>): seq<K> {
    if vs == [] then [] else KindSequence(rules, vs[0]) + KindSequences(rules, vs[1..])
  }

  lemma {:induction false} KindSequencesAppend<K>(rules: Skeleton<K>, xs: seq<Visit<K>>, ys: seq<Visit<K>>)
    ensures KindSequences(rules, xs + ys) == KindSequences(rules, xs) + KindSequences(rules, ys)
  {
    if xs == [] {
      assert xs + ys == ys;
    } else {
      assert (xs + ys)[1..] == xs[1..] + ys;
      KindSequencesAppend(rules, xs[1..], ys);
    }
  }

  lemma KindsAppend<K>(rules: Skeleton<K>, xs: seq<Visit<K>>, ys: seq<Visit<K>>)
    ensures Kinds(Pointers(rules, xs + ys)) == Kinds(Pointers(rules, xs)) + Kinds(Pointers(rules, ys))
  {
    PointersAppend(rules, xs, ys);
  }

  lemma KindSequenceUnfolds<K>(rules: Skeleton<K>, v: Visit<K>)
    ensures KindSequence(rules, v)
         == (if IsIndexed(rules, v) then [v.node.kind] else []) + Kinds(Pointers(rules, WalkFrom(rules, v, 0)))
  {
    KindsAppend(rules, [v], WalkFrom(rules, v, 0));
    assert [v][1..] == [];
    assert Kinds(Pointers(rules, [v])) == if IsIndexed(rules, v) then [v.node.kind] else [];
  }

  /** Every indexed node at or below `v` is at or below one of its escapes. */
  lemma {:induction false} EscapesCarryKinds<K>(rules: Skeleton<K>, v: Visit<K>)
    ensures KindSequences(rules, Escapes(rules, v)) == KindSequence(rules, v)
    decreases v.node, 1
  {
    if Exposed(rules, v) {
      assert [v][1..] == [];
      assert KindSequences(rules, [v]) == KindSequence(rules, v) + [];
    } else {
      KindSequenceUnfolds(rules, v);
      FrontCarriesKinds(rules, v, 0);
    }
  }

  lemma {:induction false} FrontCarriesKinds<K>(rules: Skeleton<K>, v: Visit<K>, k: nat)
    ensures KindSequences(rules, EscapesFrom(rules, v, k)) == Kinds(Pointers(rules, WalkFrom(rules, v, k)))
    decreases v.node, 0, |v.node.children| - k
  {
    if k < |v.node.children| {
      FrontCarriesKinds(rules, v, k + 1);
      var w := PlanChild(rules, v, v.node.children[k]);
      if w.Some? {
        EscapesCarryKinds(rules, w.value);
        KindSequencesAppend(rules, Escapes(rules, w.value), EscapesFrom(rules, v, k + 1));
        KindsAppend(rules, Walk(rules, w.value), WalkFrom(rules, v, k + 1));
      } else {
        assert WalkFrom(rules, v, k) == WalkFrom(rules, v, k + 1);
        assert EscapesFrom(rules, v, k) == EscapesFrom(rules, v, k + 1);
      }
    }
  }

  lemma {:induction false} SimilarKinds<K>(rules: Skeleton<K>, v: Visit<K>, v': Visit<K>)
    requires Similar(rules, v, v') && IsIndexed(rules, v) == IsIndexed(rules, v')
    ensures KindSequence(rules, v) == KindSequence(rules, v')
    decreases v.node, 1
  {
    KindSequenceUnfolds(rules, v);
    KindSequenceUnfolds(rules, v');
    FrontCarriesKinds(rules, v, 0);
    FrontCarriesKinds(rules, v', 0);
    EscapesAreExposed(rules, v, 0);
    EscapesAreExposed(rules, v', 0);
    SimilarAllKinds(rules, v.node, Front(rules, v), Front(rules, v'));
  }

  lemma {:induction false} SimilarAllKinds<K>(rules: Skeleton<K>, bound: Node<K>, es: seq<Visit<K>>, es': seq<Visit<K>>)
    requires SimilarAll(rules, es, es')
    requires forall i | 0 <= i < |es| :: es[i].node < bound && Exposed(rules, es[i])
    requires forall i | 0 <= i < |es'| :: Exposed(rules, es'[i])
    ensures KindSequences(rules, es) == KindSequences(rules, es')
    decreases bound, 0, |es|
  {
    if es != [] {
      SimilarKinds(rules, es[0], es'[0]);
      SimilarAllKinds(rules, bound, es[1..], es'[1..]);
    }
  }

  lemma {:induction false} EscapesAreExposed<K>(rules: Skeleton<K>, v: Visit<K>, k: nat)
    ensures forall i | 0 <= i < |EscapesFrom(rules, v, k)| :: Exposed(rules, EscapesFrom(rules, v, k)[i])
    decreases v.node, |v.node.children| - k
  {
    if k < |v.node.children| {
      EscapesAreExposed(rules, v, k + 1);
      var w := PlanChild(rules, v, v.node.children[k]);
      if w.Some? && !Exposed(rules, w.value) {
        EscapesAreExposed(rules, w.value, 0);
      }
      assert EscapesFrom(rules, v, k)
          == (if w.Some? then Escapes(rules, w.value) else []) + EscapesFrom(rules, v, k + 1);
    }
  }

  /** The main result: the maps of similar files store the same (kind, id) pairs. */
  lemma SimilarFilesKeepIds<K>(rules: Skeleton<K>, root: Node<K>, root': Node<K>, m: IdMap<K>, m': IdMap<K>)
    requires m.arena == Preorder(rules, root) && m'.arena == Preorder(rules, root')
    requires Similar(rules, Root(root), Root(root'))
    ensures IdSequence(m) == IdSequence(m')
  {
    SimilarKinds(rules, Root(root), Root(root'));
    var kinds, kinds' := Kinds(m.arena), Kinds(m'.arena);
    assert |kinds| == |m.arena| && |kinds'| == |m'.arena|;
    forall i | 0 <= i < |kinds| ensures m.arena[i].kind == m'.arena[i].kind {
      assert kinds[i] == kinds'[i];
    }
  }

  // ----- similarity composes

  lemma {:induction false} SimilarReflexive<K>(rules: Skeleton<K>, v: Visit<K>)
    ensures Similar(rules, v, v)
    decreases v.node
  {
    var es := Front(rules, v);
    forall i | 0 <= i < |es| ensures Similar(rules, es[i], es[i]) {
      SimilarReflexive(rules, es[i]);
    }
  }

  lemma {:induction false} SimilarTransitive<K>(rules: Skeleton<K>, v: Visit<K>, v': Visit<K>, v'': Visit<K>)
    requires Similar(rules, v, v') && Similar(rules, v', v'')
    ensures Similar(rules, v, v'')
    decreases v.node
  {
    var es, es', es'' := Front(rules, v), Front(rules, v'), Front(rules, v'');
    forall i | 0 <= i < |es| ensures Similar(rules, es[i], es''[i]) {
      SimilarTransitive(rules, es[i], es'[i], es''[i]);
    }
  }

  // ----- an edit at a position

  function ReplaceAt<K>(n: Node<K>, path: seq<nat>, u: Node<K>): (r: Node<K>)
    requires ValidPath(n, path)
    ensures ValidPath(r, path) && NodeAt(r, path) == u
    decreases n
  {
    if path == [] then u
    else n.(children := n.children[path[0] := ReplaceAt(n.children[path[0]], path[1..], u)])
  }

  /**
   The edit at `path` puts `u` where the old subtree showed equivalent
   declarations, or lies in a region that is not visited at all.
   */
  predicate BodyEdit<K(==)>(rules: Skeleton<K>, v: Visit<K>, path: seq<nat>, u: Node<K>)
    requires path != [] && ValidPath(v.node, path)
    decreases v.node
  {
    var child := v.node.children[path[0]];
    if |path| == 1 then SimilarAll(rules, Shown(rules, v, child), Shown(rules, v, u))
    else
      var w := PlanChild(rules, v, child);
      w.Some? ==> BodyEdit(rules, w.value, path[1..], u)
  }

  /** Similar nodes escape alike: as themselves, or through what lies below them. */
  lemma EscapesOfSimilar<K>(rules: Skeleton<K>, w: Visit<K>, w': Visit<K>)
    requires Similar(rules, w, w') && w' == w.(node := w'.node)
    ensures SimilarAll(rules, Escapes(rules, w), Escapes(rules, w'))
  {
    var es, es' := Escapes(rules, w), Escapes(rules, w');
    if Exposed(rules, w) {
      assert es == [w] && es' == [w'];
    } else {
      assert es == Front(rules, w) && es' == Front(rules, w');
      forall i | 0 <= i < |es| ensures |es| == |es'| && Similar(rules, es[i], es'[i]) {
        assert Similar(rules, Front(rules, w)[i], Front(rules, w')[i]);
      }
    }
  }

  lemma {:induction false} BodyEditIsSimilar<K>(rules: Skeleton<K>, v: Visit<K>, path: seq<nat>, u: Node<K>)
    requires path != [] && ValidPath(v.node, path) && BodyEdit(rules, v, path, u)
    ensures Similar(rules, v, v.(node := ReplaceAt(v.node, path, u)))
    decreases v.node
  {
    var v' := v.(node := ReplaceAt(v.node, path, u));
    var child, child' := v.node.children[path[0]], v'.node.children[path[0]];
    if |path| > 1 {
      assert path[1..] != [];
      assert child' == ReplaceAt(child, path[1..], u) && child'.kind == child.kind;
      var w := PlanChild(rules, v, child);
      if w.Some? {
        BodyEditIsSimilar(rules, w.value, path[1..], u);
      }
      ShownOfSimilar(rules, v, v', child, child');
    } else {
      assert path[1..] == [] && child' == u;
      assert Shown(rules, v', u) == Shown(rules, v, u);
    }
    FrontWithOneChildEdited(rules, v, v', path[0], 0);
  }

  /** A child edited into a similar one is planned alike and shows alike. */
  lemma ShownOfSimilar<K>(rules: Skeleton<K>, v: Visit<K>, v': Visit<K>, child: Node<K>, child': Node<K>)
    requires v' == v.(node := v'.node) && v.node.kind == v'.node.kind && child.kind == child'.kind
    requires var w := PlanChild(rules, v, child); w.Some? ==> Similar(rules, w.value, w.value.(node := child'))
    ensures SimilarAll(rules, Shown(rules, v, child), Shown(rules, v', child'))
  {
    var w, w' := PlanChild(rules, v, child), PlanChild(rules, v', child');
    if w.Some? {
      assert w' == Some(w.value.(node := child'));
      EscapesOfSimilar(rules, w.value, w'.value);
    } else {
      assert w'.None?;
    }
  }

  lemma {:induction false} FrontWithOneChildEdited<K>(rules: Skeleton<K>, v: Visit<K>, v': Visit<K>, c: nat, k: nat)
    requires c < |v.node.children| == |v'.node.children| && v' == v.(node := v'.node)
    requires v'.node == v.node.(children := v.node.children[c := v'.node.children[c]])
    requires SimilarAll(rules, Shown(rules, v, v.node.children[c]), Shown(rules, v', v'.node.children[c]))
    ensures SimilarAll(rules, EscapesFrom(rules, v, k), EscapesFrom(rules, v', k))
    decreases |v.node.children| - k
  {
    if k < |v.node.children| {
      FrontWithOneChildEdited(rules, v, v', c, k + 1);
      var shown, shown' := Shown(rules, v, v.node.children[k]), Shown(rules, v', v'.node.children[k]);
      if k != c {
        assert shown == shown';
        forall i | 0 <= i < |shown| ensures Similar(rules, shown[i], shown'[i]) {
          SimilarReflexive(rules, shown[i]);
        }
      }
      SimilarAllAppend(rules, shown, EscapesFrom(rules, v, k + 1), shown', EscapesFrom(rules, v', k + 1));
    }
  }

  // ----- an edit moves the ranges of everything after it

  predicate SameUpToRanges<K(==)>(n: Node<K>, n': Node<K>)
    decreases n
  {
    && n.kind == n'.kind
    && |n.children| == |n'.children|
    && forall i | 0 <= i < |n.children| :: SameUpToRanges(n.children[i], n'.children[i])
  }

  lemma {:induction false} RangesDoNotMatter<K>(rules: Skeleton<K>, v: Visit<K>, n: Node<K>)
    requires SameUpToRanges(v.node, n)
    ensures Similar(rules, v, v.(node := n))
    decreases v.node, 1
  {
    FrontUpToRanges(rules, v, n, 0);
  }

  lemma {:induction false} FrontUpToRanges<K>(rules: Skeleton<K>, v: Visit<K>, n: Node<K>, k: nat)
    requires SameUpToRanges(v.node, n)
    ensures SimilarAll(rules, EscapesFrom(rules, v, k), EscapesFrom(rules, v.(node := n), k))
    decreases v.node, 0, |v.node.children| - k
  {
    if k < |v.node.children| {
      FrontUpToRanges(rules, v, n, k + 1);
      var v' := v.(node := n);
      var shown, shown' := Shown(rules, v, v.node.children[k]), Shown(rules, v', n.children[k]);
      var w := PlanChild(rules, v, v.node.children[k]);
      if w.Some? {
        RangesDoNotMatter(rules, w.value, n.children[k]);
      }
      SimilarAllAppend(rules, shown, EscapesFrom(rules, v, k + 1), shown', EscapesFrom(rules, v', k + 1));
    }
  }

  /** A body edit, wherever it is and however it shifts the ranges, leaves every id where it was. */
  lemma BodyEditKeepsIds<K>(
      rules: Skeleton<K>, root: Node<K>, path: seq<nat>, u: Node<K>, root': Node<K>, m: IdMap<K>, m': IdMap<K>)
    requires path != [] && ValidPath(root, path) && BodyEdit(rules, Root(root), path, u)
    requires SameUpToRanges(ReplaceAt(root, path, u), root')
    requires m.arena == Preorder(rules, root) && m'.arena == Preorder(rules, root')
    ensures IdSequence(m) == IdSequence(m')
  {
    var edited := ReplaceAt(root, path, u);
    BodyEditIsSimilar(rules, Root(root), path, u);
    RangesDoNotMatter(rules, Root(edited), root');
    SimilarTransitive(rules, Root(root), Root(edited), Root(root'));
    SimilarFilesKeepIds(rules, root, root', m, m');
  }
}
