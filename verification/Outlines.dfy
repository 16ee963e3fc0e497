/**
 What the id map sees of a file, and what it forgets: the outline, the pre-order of
 exposed nodes with their depths, decides similarity; the ids keep the indexed kinds
 of it and drop the depths.
 */
module Outlines {
  import opened Wrappers
  import opened SyntaxTree
  import opened AstIdMap
  import opened BodyEdits
  import opened SkeletonRules

  datatype Entry<K> = Entry(kind: K, depth: nat)

  function Outline<K>(rules: Skeleton<K>, v: Visit<K>, depth: nat): (o: seq<Entry<K>>)
    ensures o != [] && o[0] == Entry(v.node.kind, depth)
    ensures forall i | 1 <= i < |o| :: depth < o[i].depth
    decreases v.node, 1, 0
  {
    [Entry(v.node.kind, depth)] + OutlineAll(rules, v.node, Front(rules, v), depth + 1)
  }

  function OutlineAll<K>(rules: Skeleton<K>, bound: Node<K>, es: seq<Visit<K>>, depth: nat): (o: seq<Entry<K>>)
    requires forall i | 0 <= i < |es| :: es[i].node < bound
    ensures forall i | 0 <= i < |o| :: depth <= o[i].depth
    ensures if es == [] then o == [] else o != [] && o[0] == Entry(es[0].node.kind, depth)
    decreases bound, 0, |es|
  {
    if es == [] then [] else Outline(rules, es[0], depth) + OutlineAll(rules, bound, es[1..], depth)
  }

  // ----- the outline decides similarity

  /** A block starts at `depth` and stays below it. */
  ghost predicate Block<K>(o: seq<Entry<K>>, depth: nat) {
    o != [] && o[0].depth == depth && forall i | 1 <= i < |o| :: depth < o[i].depth
  }

  lemma BlockEnds<K>(a: seq<Entry<K>>, r: seq<Entry<K>>, b: seq<Entry<K>>, s: seq<Entry<K>>, depth: nat)
    requires Block(a, depth) && Block(b, depth) && a + r == b + s
    requires r != [] ==> r[0].depth == depth
    ensures |b| <= |a|
  {
    var all := a + r;
    assert |a| < |all| ==> all[|a|].depth == depth;
    assert forall i | 1 <= i < |b| :: depth < all[i].depth by {
      forall i | 1 <= i < |b| ensures all[i] == b[i] {}
    }
  }

  /** Two texts of blocks split after the first block in one way only. */
  lemma BlocksSplit<K>(a: seq<Entry<K>>, r: seq<Entry<K>>, b: seq<Entry<K>>, s: seq<Entry<K>>, depth: nat)
    requires Block(a, depth) && Block(b, depth) && a + r == b + s
    requires (r != [] ==> r[0].depth == depth) && (s != [] ==> s[0].depth == depth)
    ensures a == b && r == s
  {
    BlockEnds(a, r, b, s, depth);
    BlockEnds(b, s, a, r, depth);
    assert a == (a + r)[..|a|] && b == (b + s)[..|b|];
    assert r == (a + r)[|a|..] && s == (b + s)[|b|..];
  }

  lemma {:induction false} SimilarIffSameOutline<K>(rules: Skeleton<K>, v: Visit<K>, v': Visit<K>, depth: nat)
    ensures Similar(rules, v, v') <==> Outline(rules, v, depth) == Outline(rules, v', depth)
    decreases v.node, 1, 0
  {
    var es, es' := Front(rules, v), Front(rules, v');
    var o, o' := OutlineAll(rules, v.node, es, depth + 1), OutlineAll(rules, v'.node, es', depth + 1);
    assert Outline(rules, v, depth)[1..] == o && Outline(rules, v', depth)[1..] == o';
    SimilarAllIffSameOutline(rules, v.node, es, v'.node, es', depth + 1);
  }

  lemma {:induction false} SimilarAllIffSameOutline<K>(
      rules: Skeleton<K>, bound: Node<K>, es: seq<Visit<K>>, bound': Node<K>, es': seq<Visit<K>>, depth: nat)
    requires forall i | 0 <= i < |es| :: es[i].node < bound
    requires forall i | 0 <= i < |es'| :: es'[i].node < bound'
    ensures SimilarAll(rules, es, es') <==> OutlineAll(rules, bound, es, depth) == OutlineAll(rules, bound', es', depth)
    decreases bound, 0, |es|
  {
    if es != [] && es' != [] {
      var a, r := Outline(rules, es[0], depth), OutlineAll(rules, bound, es[1..], depth);
      var b, s := Outline(rules, es'[0], depth), OutlineAll(rules, bound', es'[1..], depth);
      SimilarIffSameOutline(rules, es[0], es'[0], depth);
      SimilarAllIffSameOutline(rules, bound, es[1..], bound', es'[1..], depth);
      SimilarAllCons(rules, es, es');
      if a + r == b + s {
        BlocksSplit(a, r, b, s, depth);
      }
    }
  }

  lemma SimilarAllCons<K>(rules: Skeleton<K>, es: seq<Visit<K>>, es': seq<Visit<K>>)
    requires es != [] && es' != []
    ensures SimilarAll(rules, es, es') <==> Similar(rules, es[0], es'[0]) && SimilarAll(rules, es[1..], es'[1..])
  {
    if Similar(rules, es[0], es'[0]) && SimilarAll(rules, es[1..], es'[1..]) {
      forall i | 0 <= i < |es| ensures Similar(rules, es[i], es'[i]) {
        if i > 0 {
          assert Similar(rules, es[1..][i - 1], es'[1..][i - 1]);
        }
      }
    }
    if SimilarAll(rules, es, es') {
      forall i | 0 <= i < |es[1..]| ensures Similar(rules, es[1..][i], es'[1..][i]) {
        assert Similar(rules, es[i + 1], es'[i + 1]);
      }
    }
  }

  // ----- the ids are the outline without depths and unindexed kinds

  function IndexedKinds<K>(rules: Skeleton<K>, o: seq<Entry<K>>): seq<K> {
    if o == [] then []
    else (if rules.isIndexable(o[0].kind) then [o[0].kind] else []) + IndexedKinds(rules, o[1..])
  }

  lemma {:induction false} IndexedKindsAppend<K>(rules: Skeleton<K>, o: seq<Entry<K>>, p: seq<Entry<K>>)
    ensures IndexedKinds(rules, o + p) == IndexedKinds(rules, o) + IndexedKinds(rules, p)
  {
    if o == [] {
      assert o + p == p;
    } else {
      var all := o + p;
      var head := if rules.isIndexable(o[0].kind) then [o[0].kind] else [];
      assert all[0] == o[0] && all[1..] == o[1..] + p;
      IndexedKindsAppend(rules, o[1..], p);
      assert IndexedKinds(rules, all) == head + IndexedKinds(rules, all[1..]);
    }
  }

  lemma {:induction false} IdsAreTheOutline<K>(rules: Skeleton<K>, v: Visit<K>, depth: nat)
    requires Exposed(rules, v)
    ensures KindSequence(rules, v) == IndexedKinds(rules, Outline(rules, v, depth))
    decreases v.node, 1, 0
  {
    var es := Front(rules, v);
    KindSequenceUnfolds(rules, v);
    FrontCarriesKinds(rules, v, 0);
    EscapesAreExposed(rules, v, 0);
    IdsOfAllAreTheOutline(rules, v.node, es, depth + 1);
    var o := OutlineAll(rules, v.node, es, depth + 1);
    assert Outline(rules, v, depth)[1..] == o;
  }

  lemma {:induction false} IdsOfAllAreTheOutline<K>(rules: Skeleton<K>, bound: Node<K>, es: seq<Visit<K>>, depth: nat)
    requires forall i | 0 <= i < |es| :: es[i].node < bound && Exposed(rules, es[i])
    ensures KindSequences(rules, es) == IndexedKinds(rules, OutlineAll(rules, bound, es, depth))
    decreases bound, 0, |es|
  {
    if es != [] {
      IdsAreTheOutline(rules, es[0], depth);
      IdsOfAllAreTheOutline(rules, bound, es[1..], depth);
      IndexedKindsAppend(rules, Outline(rules, es[0], depth), OutlineAll(rules, bound, es[1..], depth));
    }
  }

  /** Two files store the same (kind, id) pairs exactly when their outlines index the same kinds in order. */
  lemma SameIdsIff<K>(rules: Skeleton<K>, root: Node<K>, root': Node<K>, m: IdMap<K>, m': IdMap<K>)
    requires m.arena == Preorder(rules, root) && m'.arena == Preorder(rules, root')
    ensures IdSequence(m) == IdSequence(m') <==>
      IndexedKinds(rules, Outline(rules, Root(root), 0)) == IndexedKinds(rules, Outline(rules, Root(root'), 0))
  {
    IdsAreTheOutline(rules, Root(root), 0);
    IdsAreTheOutline(rules, Root(root'), 0);
    IdsAreKinds(m);
    IdsAreKinds(m');
    if IdSequence(m) == IdSequence(m') {
      assert |m.arena| == |IdSequence(m)| == |m'.arena|;
      forall i | 0 <= i < |m.arena| ensures m.arena[i].kind == m'.arena[i].kind {
        assert IdSequence(m)[i] == IdSequence(m')[i];
      }
    }
  }

  lemma IdsAreKinds<K>(m: IdMap<K>)
    ensures |IdSequence(m)| == |Kinds(m.arena)|
    ensures forall i | 0 <= i < |m.arena| :: IdSequence(m)[i] == (Kinds(m.arena)[i], i)
  {}

  // ----- a nesting the ids do not show

  function EmptyClass(start: nat): Node<JavaKind> {
    Node(ClassDecl, Range(start, start + 9), [Node(ClassBody, Range(start + 7, start + 9), [])])
  }

  /** `class A{}class B{}` */
  function Beside(): Node<JavaKind> {
    Node(OtherJava(0), Range(0, 18), [EmptyClass(0), EmptyClass(9)])
  }

  /** `{class B{}}`, the body of `A`. */
  function OuterBody(): Node<JavaKind> {
    Node(ClassBody, Range(7, 18), [EmptyClass(8)])
  }

  /** `class A{class B{}}` */
  function Inside(): Node<JavaKind> {
    Node(OtherJava(0), Range(0, 18), [Node(ClassDecl, Range(0, 18), [OuterBody()])])
  }

  lemma OnlyChildOutline<K>(rules: Skeleton<K>, v: Visit<K>, w: Visit<K>, depth: nat)
    requires |v.node.children| == 1 && PlanChild(rules, v, v.node.children[0]) == Some(w) && !w.body
    ensures Outline(rules, v, depth) == [Entry(v.node.kind, depth)] + Outline(rules, w, depth + 1)
  {
    assert EscapesFrom(rules, v, 1) == [] && Escapes(rules, w) == [w];
    assert EscapesFrom(rules, v, 0) == Escapes(rules, w) + EscapesFrom(rules, v, 1);
    assert Front(rules, v) == [w] && [w][1..] == [];
    assert OutlineAll(rules, v.node, [w], depth + 1) == Outline(rules, w, depth + 1) + [];
  }

  lemma LeafOutline<K>(rules: Skeleton<K>, v: Visit<K>, depth: nat)
    requires v.node.children == []
    ensures Outline(rules, v, depth) == [Entry(v.node.kind, depth)]
  {
    assert Front(rules, v) == [];
  }

  lemma TwoChildrenOutline<K>(rules: Skeleton<K>, v: Visit<K>, a: Visit<K>, b: Visit<K>, depth: nat)
    requires |v.node.children| == 2 && !a.body && !b.body
    requires PlanChild(rules, v, v.node.children[0]) == Some(a) && PlanChild(rules, v, v.node.children[1]) == Some(b)
    ensures Outline(rules, v, depth)
         == [Entry(v.node.kind, depth)] + (Outline(rules, a, depth + 1) + Outline(rules, b, depth + 1))
  {
    assert EscapesFrom(rules, v, 2) == [] && Escapes(rules, a) == [a] && Escapes(rules, b) == [b];
    assert EscapesFrom(rules, v, 1) == Escapes(rules, b) + EscapesFrom(rules, v, 2);
    assert EscapesFrom(rules, v, 0) == Escapes(rules, a) + EscapesFrom(rules, v, 1);
    assert Front(rules, v) == [a, b] && [a, b][1..] == [b] && [b][1..] == [];
    assert OutlineAll(rules, v.node, [b], depth + 1) == Outline(rules, b, depth + 1) + [];
    assert OutlineAll(rules, v.node, [a, b], depth + 1)
        == Outline(rules, a, depth + 1) + OutlineAll(rules, v.node, [b], depth + 1);
  }

  function Visited(n: Node<JavaKind>, parent: JavaKind): Visit<JavaKind> {
    Visit(n, Some(parent), false)
  }

  lemma FileOutline(file: Node<JavaKind>, c: Node<JavaKind>)
    requires file.kind == OtherJava(0) && file.children == [c] && c.kind == ClassDecl
    ensures Outline(Java(), Root(file), 0) == [Entry(OtherJava(0), 0)] + Outline(Java(), Visited(c, OtherJava(0)), 1)
  {
    OnlyChildOutline(Java(), Root(file), Visited(c, OtherJava(0)), 0);
  }

  lemma ClassOutline(c: Node<JavaKind>, body: Node<JavaKind>, parent: JavaKind, depth: nat)
    requires c.kind == ClassDecl && c.children == [body] && body.kind == ClassBody
    ensures Outline(Java(), Visited(c, parent), depth)
         == [Entry(ClassDecl, depth)] + Outline(Java(), Visited(body, ClassDecl), depth + 1)
  {
    OnlyChildOutline(Java(), Visited(c, parent), Visited(body, ClassDecl), depth);
  }

  lemma BodyOutline(body: Node<JavaKind>, c: Node<JavaKind>, depth: nat)
    requires body.kind == ClassBody && body.children == [c] && c.kind == ClassDecl
    ensures Outline(Java(), Visited(body, ClassDecl), depth)
         == [Entry(ClassBody, depth)] + Outline(Java(), Visited(c, ClassBody), depth + 1)
  {
    OnlyChildOutline(Java(), Visited(body, ClassDecl), Visited(c, ClassBody), depth);
  }

  lemma EmptyClassOutline(start: nat, parent: JavaKind, depth: nat)
    ensures Outline(Java(), Visited(EmptyClass(start), parent), depth)
         == [Entry(ClassDecl, depth), Entry(ClassBody, depth + 1)]
  {
    var body := EmptyClass(start).children[0];
    ClassOutline(EmptyClass(start), body, parent, depth);
    LeafOutline(Java(), Visited(body, ClassDecl), depth + 1);
  }

  lemma BesideOutline()
    ensures Outline(Java(), Root(Beside()), 0)
         == [Entry(OtherJava(0), 0), Entry(ClassDecl, 1), Entry(ClassBody, 2), Entry(ClassDecl, 1), Entry(ClassBody, 2)]
  {
    TwoChildrenOutline(
      Java(), Root(Beside()), Visited(EmptyClass(0), OtherJava(0)), Visited(EmptyClass(9), OtherJava(0)), 0);
    EmptyClassOutline(0, OtherJava(0), 1);
    EmptyClassOutline(9, OtherJava(0), 1);
  }

  lemma InsideOutline()
    ensures Outline(Java(), Root(Inside()), 0)
         == [Entry(OtherJava(0), 0), Entry(ClassDecl, 1), Entry(ClassBody, 2), Entry(ClassDecl, 3), Entry(ClassBody, 4)]
  {
    var o := [Entry(ClassDecl, 3), Entry(ClassBody, 4)];
    EmptyClassOutline(8, ClassBody, 3);
    NestedOutline(Inside(), Inside().children[0], OuterBody(), EmptyClass(8), o);
  }

  lemma NestedOutline(file: Node<JavaKind>, c: Node<JavaKind>, body: Node<JavaKind>, inner: Node<JavaKind>, o: seq<Entry<JavaKind>>)
    requires file.kind == OtherJava(0) && file.children == [c] && c.kind == ClassDecl
    requires c.children == [body] && body.kind == ClassBody && body.children == [inner] && inner.kind == ClassDecl
    requires Outline(Java(), Visited(inner, ClassBody), 3) == o
    ensures Outline(Java(), Root(file), 0) == [Entry(OtherJava(0), 0), Entry(ClassDecl, 1), Entry(ClassBody, 2)] + o
  {
    FileOutline(file, c);
    ClassOutline(c, body, OtherJava(0), 1);
    BodyOutline(body, inner, 2);
  }

  lemma ExamplesAreNested()
    ensures Nested(Beside()) && Nested(Inside())
  {
    assert forall start :: Nested(EmptyClass(start));
    assert Nested(OuterBody());
    assert Nested(Inside().children[0]);
  }

  /** Two classes side by side and one inside the other: other outlines, the same ids. */
  lemma NestingDoesNotShowInIds()
    ensures Nested(Beside()) && Nested(Inside())
    ensures !Similar(Java(), Root(Beside()), Root(Inside()))
    ensures KindSequence(Java(), Root(Beside())) == KindSequence(Java(), Root(Inside())) == [ClassDecl, ClassDecl]
  {
    ExamplesAreNested();
    BesideOutline();
    InsideOutline();
    assert Outline(Java(), Root(Beside()), 0)[3] != Outline(Java(), Root(Inside()), 0)[3];
    SimilarIffSameOutline(Java(), Root(Beside()), Root(Inside()), 0);
    IdsAreTheOutline(Java(), Root(Beside()), 0);
    IdsAreTheOutline(Java(), Root(Inside()), 0);
    TwoClasses(1, 2, 1, 2);
    TwoClasses(1, 2, 3, 4);
  }

  lemma TwoClasses(a: nat, b: nat, c: nat, d: nat)
    ensures IndexedKinds(Java(), [Entry(OtherJava(0), 0), Entry(ClassDecl, a), Entry(ClassBody, b), Entry(ClassDecl, c), Entry(ClassBody, d)])
         == [ClassDecl, ClassDecl]
  {
    var o := [Entry(OtherJava(0), 0), Entry(ClassDecl, a), Entry(ClassBody, b), Entry(ClassDecl, c), Entry(ClassBody, d)];
    assert IndexedKinds(Java(), o[4..]) == [] by { assert o[4..][1..] == []; }
    assert IndexedKinds(Java(), o[3..]) == [ClassDecl] by { assert o[3..][1..] == o[4..]; }
    assert IndexedKinds(Java(), o[2..]) == [ClassDecl] by { assert o[2..][1..] == o[3..]; }
    assert IndexedKinds(Java(), o[1..]) == [ClassDecl, ClassDecl] by { assert o[1..][1..] == o[2..]; }
  }
}
