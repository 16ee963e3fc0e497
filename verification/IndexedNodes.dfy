/**
 Which nodes have an id, told by the kinds on the way down to them: where body content
 begins and ends, and what is not visited at all.
 */
module IndexedNodes {
  import opened Wrappers
  import opened SyntaxTree
  import opened AstIdMap
  import opened ContentEdits
  import opened SkeletonRules

  /** The kinds from the root to the node at `path`, both included. */
  function KindsAlong<K>(n: Node<K>, path: seq<nat>): (ks: seq<K>)
    requires ValidPath(n, path)
    ensures |ks| == |path| + 1 && ks[0] == n.kind
    decreases n
  {
    if path == [] then [n.kind] else [n.kind] + KindsAlong(n.children[path[0]], path[1..])
  }

  // ----- one step further down

  lemma {:induction false} OneStepDown<K>(rules: Skeleton<K>, v: Visit<K>, path: seq<nat>)
    requires path != [] && ValidPath(v.node, path)
    ensures var front := path[..|path| - 1];
      && ValidPath(v.node, front)
      && KindsAlong(v.node, path) == KindsAlong(v.node, front) + [NodeAt(v.node, path).kind]
      && KindsAlong(v.node, front)[|front|] == NodeAt(v.node, front).kind
      && var parent := VisitAt(rules, v, front);
         VisitAt(rules, v, path) ==
           if parent.Some? then PlanChild(rules, parent.value, NodeAt(v.node, path)) else None
    decreases v.node
  {
    var front := path[..|path| - 1];
    var child := v.node.children[path[0]];
    ParentIsValid(v.node, path);
    if |path| == 1 {
      assert path[1..] == [] && front == [];
    } else {
      assert front[1..] == path[1..][..|path[1..]| - 1];
      var w := PlanChild(rules, v, child);
      OneStepDown(rules, if w.Some? then w.value else Visit(child, None, false), path[1..]);
    }
  }

  lemma {:induction false} ParentIsAlong<K>(rules: Skeleton<K>, v: Visit<K>, path: seq<nat>)
    requires path != [] && ValidPath(v.node, path) && VisitAt(rules, v, path).Some?
    ensures VisitAt(rules, v, path).value.parent == Some(KindsAlong(v.node, path)[|path| - 1])
  {
    OneStepDown(rules, v, path);
    var front := path[..|path| - 1];
    assert KindsAlong(v.node, path)[|path| - 1] == KindsAlong(v.node, front)[|front|];
  }

  // ----- the ids of a file are those of the nodes visited and indexed

  ghost predicate VisitsAt<K>(rules: Skeleton<K>, v: Visit<K>, path: seq<nat>, w: Visit<K>) {
    ValidPath(v.node, path) && VisitAt(rules, v, path) == Some(w)
  }

  lemma {:induction false} WalkHoldsVisits<K>(rules: Skeleton<K>, v: Visit<K>, path: seq<nat>, w: Visit<K>)
    requires VisitsAt(rules, v, path, w)
    ensures w in Walk(rules, v)
    decreases v.node
  {
    if path != [] {
      var child := PlanChild(rules, v, v.node.children[path[0]]).value;
      WalkHoldsVisits(rules, child, path[1..], w);
      WalkHoldsChild(rules, v, path[0], 0, w);
    }
  }

  lemma {:induction false} WalkHoldsChild<K>(rules: Skeleton<K>, v: Visit<K>, c: nat, k: nat, w: Visit<K>)
    requires k <= c < |v.node.children| && PlanChild(rules, v, v.node.children[c]).Some?
    requires w in Walk(rules, PlanChild(rules, v, v.node.children[c]).value)
    ensures w in WalkFrom(rules, v, k)
    decreases c - k
  {
    if k < c {
      WalkHoldsChild(rules, v, c, k + 1, w);
    }
  }

  lemma {:induction false} VisitOfWalk<K>(rules: Skeleton<K>, v: Visit<K>, w: Visit<K>) returns (path: seq<nat>)
    requires w in Walk(rules, v)
    ensures VisitsAt(rules, v, path, w)
    decreases v.node, 1
  {
    if w == v {
      path := [];
    } else {
      assert w in WalkFrom(rules, v, 0);
      path := VisitOfWalkFrom(rules, v, 0, w);
    }
  }

  lemma {:induction false} VisitOfWalkFrom<K>(rules: Skeleton<K>, v: Visit<K>, k: nat, w: Visit<K>) returns (path: seq<nat>)
    requires w in WalkFrom(rules, v, k)
    ensures VisitsAt(rules, v, path, w)
    decreases v.node, 0, |v.node.children| - k
  {
    var child := PlanChild(rules, v, v.node.children[k]);
    if child.Some? && w in Walk(rules, child.value) {
      var rest := VisitOfWalk(rules, child.value, w);
      path := [k] + rest;
      assert path[1..] == rest;
    } else {
      path := VisitOfWalkFrom(rules, v, k + 1, w);
    }
  }

  lemma {:induction false} PointersOfVisits<K>(rules: Skeleton<K>, vs: seq<Visit<K>>, ptr: NodePtr<K>)
    ensures ptr in Pointers(rules, vs) <==> exists w :: w in vs && IsIndexed(rules, w) && PtrOf(w.node) == ptr
  {
    if vs != [] {
      PointersOfVisits(rules, vs[1..], ptr);
      assert vs == [vs[0]] + vs[1..];
    }
  }

  ghost predicate HasIdAt<K>(rules: Skeleton<K>, root: Node<K>, path: seq<nat>, ptr: NodePtr<K>) {
    && ValidPath(root, path) && PtrOf(NodeAt(root, path)) == ptr
    && VisitAt(rules, Root(root), path).Some? && IsIndexed(rules, VisitAt(rules, Root(root), path).value)
  }

  lemma IdsAreIndexedVisits<K>(rules: Skeleton<K>, root: Node<K>, ptr: NodePtr<K>)
    ensures ptr in Preorder(rules, root) <==> exists path: seq<nat> :: HasIdAt(rules, root, path, ptr)
  {
    var vs := Walk(rules, Root(root));
    PointersOfVisits(rules, vs, ptr);
    if w :| w in vs && IsIndexed(rules, w) && PtrOf(w.node) == ptr {
      var path := VisitOfWalk(rules, Root(root), w);
      assert HasIdAt(rules, root, path, ptr);
    }
    if path: seq<nat> :| HasIdAt(rules, root, path, ptr) {
      var w := VisitAt(rules, Root(root), path).value;
      WalkHoldsVisits(rules, Root(root), path, w);
      assert w in vs;
    }
  }

  // ----- Java

  const CLASS_LIKE: set<JavaKind> := {ClassDecl, InterfaceDecl, EnumDecl, RecordDecl}

  predicate JavaIndexed(kind: JavaKind) {
    || kind.PackageDecl? || kind.ImportDecl? || kind.ClassDecl? || kind.InterfaceDecl? || kind.EnumDecl?
    || kind.RecordDecl? || kind.AnnotationTypeDecl? || kind.ModuleDecl? || kind.MethodDecl?
    || kind.ConstructorDecl? || kind.CompactConstructorDecl? || kind.AnnotationTypeElementDecl?
    || kind.FieldDecl? || kind.VariableDeclarator? || kind.EnumConstant? || kind.StaticInitializer?
    || kind.InstanceInitializer? || kind.FormalParameter? || kind.SpreadParameter? || kind.Type?
    || kind.Annotation? || kind.MarkerAnnotation? || kind.QualifiedName? || kind.RequiresDirective?
    || kind.ExportsDirective? || kind.OpensDirective? || kind.UsesDirective? || kind.ProvidesDirective?
  }

  /** Nothing is visited below here: the body of an anonymous class, the default of an annotation element. */
  predicate JavaPrunes(ks: seq<JavaKind>, i: nat)
    requires i < |ks| - 1
  {
    || (ks[i] == ClassBody && (i == 0 || ks[i - 1] !in {ClassDecl, EnumConstant}))
    || (ks[i] == AnnotationTypeElementDecl && ks[i + 1] !in {ModifierList, Type})
  }

  /** Body content begins: a statement, an initialiser, the arguments of an enum constant. */
  predicate JavaEnters(ks: seq<JavaKind>, i: nat)
    requires i < |ks| - 1
  {
    (ks[i] == Block && ks[i + 1] !in CLASS_LIKE) || ks[i] in {VariableDeclarator, EnumConstant}
  }

  /** Body content ends: a local class, a member of an enum constant's body, a part of an annotation element. */
  predicate JavaLeaves(ks: seq<JavaKind>, i: nat)
    requires i < |ks| - 1
  {
    || (ks[i] == Block && ks[i + 1] in CLASS_LIKE)
    || (ks[i] == ClassBody && i > 0 && ks[i - 1] == EnumConstant)
    || ks[i] == AnnotationTypeElementDecl
  }

  predicate JavaVisited(ks: seq<JavaKind>) {
    forall i: nat | i < |ks| - 1 :: !JavaPrunes(ks, i)
  }

  /** Body content began somewhere above and has not ended since. */
  predicate JavaInBody(ks: seq<JavaKind>) {
    exists i: nat | i < |ks| - 1 :: JavaEnters(ks, i) && forall j: nat | i < j < |ks| - 1 :: !JavaLeaves(ks, j)
  }

  predicate JavaHasId(ks: seq<JavaKind>) {
    ks != [] && JavaVisited(ks) && !JavaInBody(ks) && JavaIndexed(ks[|ks| - 1])
  }

  lemma JavaOneKindMore(ks: seq<JavaKind>, kind: JavaKind)
    requires ks != []
    ensures var all, n := ks + [kind], |ks| - 1;
      && (JavaVisited(all) <==> JavaVisited(ks) && !JavaPrunes(all, n))
      && (JavaInBody(all) <==> JavaEnters(all, n) || (JavaInBody(ks) && !JavaLeaves(all, n)))
  {
    var all, n := ks + [kind], |ks| - 1;
    forall i: nat | i < n
      ensures JavaPrunes(all, i) == JavaPrunes(ks, i) && JavaEnters(all, i) == JavaEnters(ks, i)
      ensures JavaLeaves(all, i) == JavaLeaves(ks, i)
    {}
  }

  /** One child planned under the rules is one kind more. */
  lemma JavaPlanIs(p: Visit<JavaKind>, child: Node<JavaKind>, ks: seq<JavaKind>)
    requires ks != [] && p.node.kind == ks[|ks| - 1]
    requires p.parent == if |ks| > 1 then Some(ks[|ks| - 2]) else None
    ensures var all, n, w := ks + [child.kind], |ks| - 1, PlanChild(Java(), p, child);
      && (w.Some? <==> !JavaPrunes(all, n))
      && (w.Some? ==> (w.value.body <==> JavaEnters(all, n) || (p.body && !JavaLeaves(all, n))))
  {}

  /** How the plan visits a node, read off the kinds above it. */
  lemma {:induction false} JavaVisitIff(root: Node<JavaKind>, path: seq<nat>)
    requires ValidPath(root, path)
    ensures var ks, w := KindsAlong(root, path), VisitAt(Java(), Root(root), path);
      && (w.Some? <==> JavaVisited(ks))
      && (w.Some? ==> (w.value.body <==> JavaInBody(ks)))
    decreases |path|
  {
    if path != [] {
      var front := path[..|path| - 1];
      OneStepDown(Java(), Root(root), path);
      JavaVisitIff(root, front);
      var ks, child, p := KindsAlong(root, front), NodeAt(root, path), VisitAt(Java(), Root(root), front);
      JavaOneKindMore(ks, child.kind);
      if p.Some? {
        JavaParent(root, front);
        JavaPlanIs(p.value, child, ks);
      }
    }
  }

  lemma JavaParent(root: Node<JavaKind>, path: seq<nat>)
    requires ValidPath(root, path) && VisitAt(Java(), Root(root), path).Some?
    ensures var ks := KindsAlong(root, path);
      VisitAt(Java(), Root(root), path).value.parent == if |ks| > 1 then Some(ks[|ks| - 2]) else None
  {
    if path != [] {
      ParentIsAlong(Java(), Root(root), path);
    }
  }

  ghost predicate JavaNodeAt(root: Node<JavaKind>, path: seq<nat>, ptr: NodePtr<JavaKind>) {
    ValidPath(root, path) && PtrOf(NodeAt(root, path)) == ptr && JavaHasId(KindsAlong(root, path))
  }

  /** A Java node has an id exactly when the kinds on the way to it say so. */
  lemma JavaIdsIff(root: Node<JavaKind>, m: IdMap<JavaKind>, ptr: NodePtr<JavaKind>)
    requires m.arena == Preorder(Java(), root)
    ensures ptr in m.arena <==> exists path: seq<nat> :: JavaNodeAt(root, path, ptr)
  {
    IdsAreIndexedVisits(Java(), root, ptr);
    forall path: seq<nat> ensures HasIdAt(Java(), root, path, ptr) <==> JavaNodeAt(root, path, ptr) {
      if ValidPath(root, path) {
        JavaVisitIff(root, path);
        LastKind(root, path);
        JavaKindIndexed(NodeAt(root, path).kind);
      }
    }
  }

  lemma {:induction false} LastKind<K>(n: Node<K>, path: seq<nat>)
    requires ValidPath(n, path)
    ensures KindsAlong(n, path)[|path|] == NodeAt(n, path).kind
    decreases n
  {
    if path != [] {
      LastKind(n.children[path[0]], path[1..]);
    }
  }

  lemma JavaKindIndexed(kind: JavaKind)
    ensures JavaIsIndexable(kind) <==> JavaIndexed(kind)
  {}

  /** A local class has an id wherever its block is visited, in whatever body content that stands. */
  lemma LocalClassHasId(ks: seq<JavaKind>, kind: JavaKind)
    requires ks != [] && ks[|ks| - 1] == Block && kind in CLASS_LIKE
    ensures JavaHasId(ks + [kind]) <==> JavaVisited(ks)
  {
    JavaOneKindMore(ks, kind);
  }

  /** A member in the class body of an enum constant has one wherever the constant is visited. */
  lemma EnumConstantMemberHasId(ks: seq<JavaKind>, kind: JavaKind)
    requires ks != [] && ks[|ks| - 1] == EnumConstant && JavaIndexed(kind)
    ensures JavaHasId(ks + [ClassBody] + [kind]) <==> JavaVisited(ks)
  {
    JavaOneKindMore(ks, ClassBody);
    JavaOneKindMore(ks + [ClassBody], kind);
  }

  /** Nothing in the body of an anonymous class has one. */
  lemma AnonymousClassHasNone(ks: seq<JavaKind>, i: nat)
    requires i < |ks| - 1 && ks[i] == ClassBody && (i > 0 ==> ks[i - 1] != ClassDecl && ks[i - 1] != EnumConstant)
    ensures !JavaHasId(ks)
  {
    assert JavaPrunes(ks, i);
  }

  /** A statement or initialiser has none. */
  lemma StatementHasNone(ks: seq<JavaKind>, kind: JavaKind)
    requires ks != [] && kind !in CLASS_LIKE && ks[|ks| - 1] in {Block, VariableDeclarator}
    ensures !JavaHasId(ks + [kind])
  {
    JavaOneKindMore(ks, kind);
  }

  // ----- Kotlin

  const LOCAL_DECLARATIONS: set<KotlinKind> := {
    KotlinClassDecl, ObjectDecl, CompanionObject, FunctionDecl, TypeAlias, ObjectLiteral}

  const TYPE_NODES: set<KotlinKind> := {
    KotlinType, NullableType, DefinitelyNonNullableType, ParenthesizedType, FunctionType, UserType}

  predicate KotlinIndexed(kind: KotlinKind) {
    || kind.FileAnnotation? || kind.PackageHeader? || kind.ImportHeader? || kind.TypeAlias?
    || kind.KotlinClassDecl? || kind.ObjectDecl? || kind.CompanionObject? || kind.ObjectLiteral?
    || kind.KotlinClassBody? || kind.EnumClassBody? || kind.EnumEntries? || kind.EnumEntry?
    || kind.FunctionDecl? || kind.PropertyDecl? || kind.VariableDeclaration? || kind.MultiVariableDeclaration?
    || kind.PrimaryConstructor? || kind.SecondaryConstructor? || kind.AnonymousInitializer?
    || kind.ClassParameters? || kind.ClassParameter? || kind.ValueParameters? || kind.ValueParameter?
    || kind.TypeParameters? || kind.TypeParameter? || kind.TypeConstraints? || kind.TypeConstraint?
    || kind.DelegationSpecifiers? || kind.DelegationSpecifier? || kind.ConstructorInvocation?
    || kind.ConstructorDelegationCall? || kind.ExplicitDelegation? || kind.ReceiverType? || kind.Getter?
    || kind.Setter? || kind.KotlinType? || kind.NullableType? || kind.DefinitelyNonNullableType?
    || kind.ParenthesizedType? || kind.KotlinAnnotation? || kind.KotlinQualifiedName?
  }

  /** Body content begins: a statement, an argument, a delegate, all of an enum entry but its class body. */
  predicate KotlinEnters(ks: seq<KotlinKind>, i: nat)
    requires i < |ks| - 1
  {
    || (ks[i] == KotlinBlock && ks[i + 1] !in LOCAL_DECLARATIONS)
    || ks[i] in {ValueArguments, PropertyDelegate}
    || (ks[i] == EnumEntry && ks[i + 1] != KotlinClassBody)
    || (ks[i] == ExplicitDelegation && ks[i + 1] !in TYPE_NODES)
  }

  /** Body content ends: a local declaration and all its parts, the body of an enum entry, a delegated type. */
  predicate KotlinLeaves(ks: seq<KotlinKind>, i: nat)
    requires i < |ks| - 1
  {
    || (ks[i] == KotlinBlock && ks[i + 1] in LOCAL_DECLARATIONS)
    || ks[i] in LOCAL_DECLARATIONS
    || (ks[i] == EnumEntry && ks[i + 1] == KotlinClassBody)
    || (ks[i] == ExplicitDelegation && ks[i + 1] in TYPE_NODES)
  }

  predicate KotlinInBody(ks: seq<KotlinKind>) {
    exists i: nat | i < |ks| - 1 :: KotlinEnters(ks, i) && forall j: nat | i < j < |ks| - 1 :: !KotlinLeaves(ks, j)
  }

  /** A local declaration keeps its id even inside body content. */
  predicate KotlinHasId(ks: seq<KotlinKind>) {
    && ks != [] && KotlinIndexed(ks[|ks| - 1])
    && (KotlinInBody(ks) ==> ks[|ks| - 1] in LOCAL_DECLARATIONS)
  }

  lemma KotlinOneKindMore(ks: seq<KotlinKind>, kind: KotlinKind)
    requires ks != []
    ensures var all, n := ks + [kind], |ks| - 1;
      KotlinInBody(all) <==> KotlinEnters(all, n) || (KotlinInBody(ks) && !KotlinLeaves(all, n))
  {
    var all, n := ks + [kind], |ks| - 1;
    forall i: nat | i < n
      ensures KotlinEnters(all, i) == KotlinEnters(ks, i) && KotlinLeaves(all, i) == KotlinLeaves(ks, i)
    {}
  }

  lemma KotlinPlanIs(p: Visit<KotlinKind>, child: Node<KotlinKind>, ks: seq<KotlinKind>)
    requires ks != [] && p.node.kind == ks[|ks| - 1]
    ensures var all, n, w := ks + [child.kind], |ks| - 1, PlanChild(Kotlin(), p, child);
      w.Some? && (w.value.body <==> KotlinEnters(all, n) || (p.body && !KotlinLeaves(all, n)))
  {}

  lemma {:induction false} KotlinVisitIff(root: Node<KotlinKind>, path: seq<nat>)
    requires ValidPath(root, path)
    ensures var w := VisitAt(Kotlin(), Root(root), path);
      w.Some? && (w.value.body <==> KotlinInBody(KindsAlong(root, path)))
    decreases |path|
  {
    if path != [] {
      var front := path[..|path| - 1];
      OneStepDown(Kotlin(), Root(root), path);
      KotlinVisitIff(root, front);
      var ks, child := KindsAlong(root, front), NodeAt(root, path);
      KotlinOneKindMore(ks, child.kind);
      KotlinPlanIs(VisitAt(Kotlin(), Root(root), front).value, child, ks);
    }
  }

  ghost predicate KotlinNodeAt(root: Node<KotlinKind>, path: seq<nat>, ptr: NodePtr<KotlinKind>) {
    ValidPath(root, path) && PtrOf(NodeAt(root, path)) == ptr && KotlinHasId(KindsAlong(root, path))
  }

  /** A Kotlin node has an id exactly when the kinds on the way to it say so. */
  lemma KotlinIdsIff(root: Node<KotlinKind>, m: IdMap<KotlinKind>, ptr: NodePtr<KotlinKind>)
    requires m.arena == Preorder(Kotlin(), root)
    ensures ptr in m.arena <==> exists path: seq<nat> :: KotlinNodeAt(root, path, ptr)
  {
    IdsAreIndexedVisits(Kotlin(), root, ptr);
    forall path: seq<nat> ensures HasIdAt(Kotlin(), root, path, ptr) <==> KotlinNodeAt(root, path, ptr) {
      if ValidPath(root, path) {
        KotlinVisitIff(root, path);
        LastKind(root, path);
        KotlinKindIndexed(NodeAt(root, path).kind);
        LocalDeclarationsAre(NodeAt(root, path).kind);
      }
    }
  }

  lemma KotlinKindIndexed(kind: KotlinKind)
    ensures KotlinIsIndexable(kind) <==> KotlinIndexed(kind)
  {}

  lemma LocalDeclarationsAre(kind: KotlinKind)
    ensures IsLocalDeclaration(kind) <==> kind in LOCAL_DECLARATIONS
  {}
}
