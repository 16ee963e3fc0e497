/**
 The Java and Kotlin rules of the skeleton walk, and the edits a reader can
 recognise by kinds alone as unable to move an id.
 */
module SkeletonRules {
  import opened Wrappers
  import opened SyntaxTree
  import opened AstIdMap
  import opened BodyEdits
  import opened ContentEdits

  // ----- Java

  /** The kinds the rules name; every other kind is `OtherJava`. */
  datatype JavaKind =
    | PackageDecl | ImportDecl | ClassDecl | InterfaceDecl | EnumDecl | RecordDecl
    | AnnotationTypeDecl | ModuleDecl | MethodDecl | ConstructorDecl | CompactConstructorDecl
    | AnnotationTypeElementDecl | FieldDecl | VariableDeclarator | EnumConstant
    | StaticInitializer | InstanceInitializer | FormalParameter | SpreadParameter
    | Type | Annotation | MarkerAnnotation | QualifiedName
    | RequiresDirective | ExportsDirective | OpensDirective | UsesDirective | ProvidesDirective
    | Block | ClassBody | ModifierList | OtherJava(code: nat)

  predicate IsClassLikeDecl(kind: JavaKind) {
    kind.ClassDecl? || kind.InterfaceDecl? || kind.EnumDecl? || kind.RecordDecl?
  }

  predicate JavaIsIndexable(kind: JavaKind) {
    !kind.Block? && !kind.ClassBody? && !kind.ModifierList? && !kind.OtherJava?
  }

  function JavaPlan(kind: JavaKind, parent: Option<JavaKind>, body: bool, child: JavaKind): Option<bool> {
    match kind
    case Block => Some(!IsClassLikeDecl(child))
    case ClassBody =>
      if parent == Some(ClassDecl) then Some(body)
      else if parent == Some(EnumConstant) then Some(false)
      else None
    case VariableDeclarator => Some(true)
    case EnumConstant => Some(true)
    case AnnotationTypeElementDecl => if child.ModifierList? || child.Type? then Some(false) else None
    case _ => Some(body)
  }

  function Java(): Skeleton<JavaKind> {
    Skeleton(k => JavaIsIndexable(k), k => false, (k, p, b, c) => JavaPlan(k, p, b, c))
  }

  // ----- Kotlin

  datatype KotlinKind =
    | FileAnnotation | PackageHeader | ImportHeader | TypeAlias | KotlinClassDecl | ObjectDecl
    | CompanionObject | ObjectLiteral | KotlinClassBody | EnumClassBody | EnumEntries | EnumEntry
    | FunctionDecl | PropertyDecl | VariableDeclaration | MultiVariableDeclaration
    | PrimaryConstructor | SecondaryConstructor | AnonymousInitializer | ClassParameters
    | ClassParameter | ValueParameters | ValueParameter | TypeParameters | TypeParameter
    | TypeConstraints | TypeConstraint | DelegationSpecifiers | DelegationSpecifier
    | ConstructorInvocation | ConstructorDelegationCall | ExplicitDelegation | ReceiverType
    | Getter | Setter | KotlinType | NullableType | DefinitelyNonNullableType | ParenthesizedType
    | KotlinAnnotation | KotlinQualifiedName
    | KotlinBlock | ValueArguments | PropertyDelegate | FunctionType | UserType | OtherKotlin(code: nat)

  predicate IsLocalDeclaration(kind: KotlinKind) {
    kind.KotlinClassDecl? || kind.ObjectDecl? || kind.CompanionObject?
    || kind.FunctionDecl? || kind.TypeAlias? || kind.ObjectLiteral?
  }

  predicate IsTypeNode(kind: KotlinKind) {
    kind.KotlinType? || kind.NullableType? || kind.DefinitelyNonNullableType?
    || kind.ParenthesizedType? || kind.FunctionType? || kind.UserType?
  }

  predicate KotlinIsIndexable(kind: KotlinKind) {
    !kind.KotlinBlock? && !kind.ValueArguments? && !kind.PropertyDelegate?
    && !kind.FunctionType? && !kind.UserType? && !kind.OtherKotlin?
  }

  function KotlinPlan(kind: KotlinKind, parent: Option<KotlinKind>, body: bool, child: KotlinKind): Option<bool> {
    if kind.KotlinBlock? then Some(!IsLocalDeclaration(child))
    else if IsLocalDeclaration(kind) then Some(false)
    else if kind.EnumEntry? then Some(!child.KotlinClassBody?)
    else if kind.ValueArguments? || kind.PropertyDelegate? then Some(true)
    else if kind.ExplicitDelegation? then Some(!IsTypeNode(child))
    else Some(body)
  }

  function Kotlin(): Skeleton<KotlinKind> {
    Skeleton(k => KotlinIsIndexable(k), k => IsLocalDeclaration(k), (k, p, b, c) => KotlinPlan(k, p, b, c))
  }

  // ----- edits between subtrees that show nothing

  lemma {:induction false} SilentSwapIsBodyEdit<K>(rules: Skeleton<K>, v: Visit<K>, path: seq<nat>, u: Node<K>)
    requires path != [] && ValidPath(v.node, path)
    requires var w := VisitAt(rules, v, path); w.Some? && Escapes(rules, w.value) == []
    requires var w := VisitAt(rules, v.(node := ReplaceAt(v.node, path, u)), path);
             w.Some? && Escapes(rules, w.value) == []
    ensures BodyEdit(rules, v, path, u)
    decreases v.node
  {
    var child := v.node.children[path[0]];
    var w := PlanChild(rules, v, child).value;
    if |path| == 1 {
      assert path[1..] == [];
    } else {
      var child' := ReplaceAt(child, path[1..], u);
      assert path[1..] != [] && child'.kind == child.kind;
      SilentSwapIsBodyEdit(rules, w, path[1..], u);
    }
  }

  // ----- subtrees recognised as silent by their kinds

  /** No kind that can leave body content, anywhere in the subtree. */
  predicate JavaPlain(n: Node<JavaKind>)
    decreases n
  {
    && !IsClassLikeDecl(n.kind) && !n.kind.EnumConstant? && !n.kind.AnnotationTypeElementDecl?
    && forall i | 0 <= i < |n.children| :: JavaPlain(n.children[i])
  }

  /** Body content that no rule below can leave. */
  predicate JavaQuiet(v: Visit<JavaKind>) {
    v.body && JavaPlain(v.node) && (v.node.kind == ClassBody ==> v.parent != Some(EnumConstant))
  }

  /** A child of quiet content is pruned, or quiet itself and not exposed. */
  lemma JavaQuietChild(v: Visit<JavaKind>, k: nat)
    requires JavaQuiet(v) && k < |v.node.children|
    ensures var w := PlanChild(Java(), v, v.node.children[k]);
      w.Some? ==> JavaQuiet(w.value) && !Exposed(Java(), w.value) && w.value.node == v.node.children[k]
  {
    assert JavaPlain(v.node.children[k]);
  }

  lemma {:induction false} JavaPlainIsSilent(v: Visit<JavaKind>, k: nat)
    requires JavaQuiet(v)
    ensures EscapesFrom(Java(), v, k) == []
    decreases v.node, |v.node.children| - k
  {
    if k < |v.node.children| {
      JavaPlainIsSilent(v, k + 1);
      JavaQuietChild(v, k);
      var w := PlanChild(Java(), v, v.node.children[k]);
      if w.Some? {
        JavaPlainIsSilent(w.value, 0);
        assert Escapes(Java(), w.value) == [];
      }
    }
  }

  /**
   The children of a Java node that index nothing, whatever flag the node has: plain
   content of blocks, initialisers and enum constants, and the default of an annotation element.
   */
  function JavaHidden(kind: JavaKind): Node<JavaKind> -> bool {
    (c: Node<JavaKind>) =>
      match kind
      case Block => JavaPlain(c)
      case VariableDeclarator => JavaPlain(c)
      case EnumConstant => JavaPlain(c) && c.kind != ClassBody
      case AnnotationTypeElementDecl => c.kind != ModifierList && c.kind != Type
      case _ => false
  }

  lemma JavaHides(kind: JavaKind)
    ensures Hides(Java(), kind, JavaHidden(kind))
  {
    forall v: Visit<JavaKind>, c: Node<JavaKind> | v.node.kind == kind && JavaHidden(kind)(c)
      ensures Shown(Java(), v, c) == []
    {
      JavaHiddenShowsNothing(v, c);
    }
  }

  lemma JavaHiddenShowsNothing(v: Visit<JavaKind>, c: Node<JavaKind>)
    requires JavaHidden(v.node.kind)(c)
    ensures Shown(Java(), v, c) == []
  {
    var w := PlanChild(Java(), v, c);
    if w.Some? {
      assert w.value == Visit(c, Some(v.node.kind), true) && JavaQuiet(w.value);
      JavaPlainIsSilent(w.value, 0);
    }
  }

  /**
   Adding, dropping and changing statements of a Java block, or the parts of an
   initialiser, keeps every id, as long as what declares something stays as it is.
   */
  lemma JavaStatementEditKeepsIds(
      root: Node<JavaKind>, path: seq<nat>, u: Node<JavaKind>, root': Node<JavaKind>,
      m: IdMap<JavaKind>, m': IdMap<JavaKind>)
    requires path != [] && ValidPath(root, path) && SameBesides(JavaHidden(u.kind), NodeAt(root, path), u)
    requires SameUpToRanges(ReplaceAt(root, path, u), root')
    requires m.arena == Preorder(Java(), root) && m'.arena == Preorder(Java(), root')
    ensures IdSequence(m) == IdSequence(m')
  {
    JavaHides(u.kind);
    ContentEditKeepsIds(Java(), root, path, u, root', JavaHidden(u.kind), m, m');
  }

  /** Any plain statements for any others: what `JavaStatementEditKeepsIds` asks of two blocks. */
  lemma PlainBlocksDifferInHiddenStatements(t: Node<JavaKind>, u: Node<JavaKind>)
    requires t.kind == u.kind == Block
    requires forall i | 0 <= i < |t.children| :: JavaPlain(t.children[i])
    requires forall i | 0 <= i < |u.children| :: JavaPlain(u.children[i])
    ensures SameBesides(JavaHidden(Block), t, u)
  {
    AllHidden(JavaHidden(Block), t.children);
    AllHidden(JavaHidden(Block), u.children);
  }

  /** Swapping a plain subtree of Java body content for another, of whatever kind, keeps every id. */
  lemma JavaSwapKeepsIds(
      root: Node<JavaKind>, path: seq<nat>, u: Node<JavaKind>, root': Node<JavaKind>,
      m: IdMap<JavaKind>, m': IdMap<JavaKind>)
    requires path != [] && ValidPath(root, path)
    requires JavaPlainBody(root, path) && JavaPlainBody(ReplaceAt(root, path, u), path)
    requires SameUpToRanges(ReplaceAt(root, path, u), root')
    requires m.arena == Preorder(Java(), root) && m'.arena == Preorder(Java(), root')
    ensures IdSequence(m) == IdSequence(m')
  {
    var edited := ReplaceAt(root, path, u);
    JavaPlainIsSilent(VisitAt(Java(), Root(root), path).value, 0);
    JavaPlainIsSilent(VisitAt(Java(), Root(edited), path).value, 0);
    SilentSwapIsBodyEdit(Java(), Root(root), path, u);
    BodyEditKeepsIds(Java(), root, path, u, root', m, m');
  }

  predicate JavaPlainBody(root: Node<JavaKind>, path: seq<nat>)
    requires ValidPath(root, path)
  {
    var w := VisitAt(Java(), Root(root), path);
    w.Some? && JavaQuiet(w.value)
  }

  predicate KotlinPlain(n: Node<KotlinKind>)
    decreases n
  {
    && !IsLocalDeclaration(n.kind) && !n.kind.EnumEntry? && !n.kind.ExplicitDelegation?
    && forall i | 0 <= i < |n.children| :: KotlinPlain(n.children[i])
  }

  lemma KotlinPlainStaysBody(v: Visit<KotlinKind>, child: Node<KotlinKind>)
    requires v.body && KotlinPlain(v.node) && KotlinPlain(child)
    ensures PlanChild(Kotlin(), v, child) == Some(Visit(child, Some(v.node.kind), true))
  {}

  lemma {:induction false} KotlinPlainIsSilent(v: Visit<KotlinKind>, k: nat)
    requires v.body && KotlinPlain(v.node)
    ensures EscapesFrom(Kotlin(), v, k) == []
    decreases v.node, |v.node.children| - k
  {
    if k < |v.node.children| {
      KotlinPlainIsSilent(v, k + 1);
      var child := v.node.children[k];
      KotlinPlainStaysBody(v, child);
      KotlinPlainIsSilent(Visit(child, Some(v.node.kind), true), 0);
    }
  }

  predicate KotlinPlainBody(root: Node<KotlinKind>, path: seq<nat>)
    requires ValidPath(root, path)
  {
    var w := VisitAt(Kotlin(), Root(root), path);
    w.Some? && w.value.body && KotlinPlain(w.value.node)
  }

  /**
   The children of a Kotlin node that index nothing, whatever flag the node has: plain
   content of blocks, arguments, delegates and enum entries, but for their class bodies and types.
   */
  function KotlinHidden(kind: KotlinKind): Node<KotlinKind> -> bool {
    (c: Node<KotlinKind>) =>
      match kind
      case KotlinBlock => KotlinPlain(c)
      case ValueArguments => KotlinPlain(c)
      case PropertyDelegate => KotlinPlain(c)
      case EnumEntry => KotlinPlain(c) && c.kind != KotlinClassBody
      case ExplicitDelegation => KotlinPlain(c) && !IsTypeNode(c.kind)
      case _ => false
  }

  lemma KotlinHides(kind: KotlinKind)
    ensures Hides(Kotlin(), kind, KotlinHidden(kind))
  {
    forall v: Visit<KotlinKind>, c: Node<KotlinKind> | v.node.kind == kind && KotlinHidden(kind)(c)
      ensures Shown(Kotlin(), v, c) == []
    {
      KotlinHiddenShowsNothing(v, c);
    }
  }

  lemma KotlinHiddenShowsNothing(v: Visit<KotlinKind>, c: Node<KotlinKind>)
    requires KotlinHidden(v.node.kind)(c)
    ensures Shown(Kotlin(), v, c) == []
  {
    var w := Visit(c, Some(v.node.kind), true);
    assert PlanChild(Kotlin(), v, c) == Some(w) && KotlinPlain(c);
    KotlinPlainIsSilent(w, 0);
  }

  /**
   Adding, dropping and changing statements of a Kotlin block, arguments or delegates
   keeps every id, as long as what declares something stays as it is.
   */
  lemma KotlinStatementEditKeepsIds(
      root: Node<KotlinKind>, path: seq<nat>, u: Node<KotlinKind>, root': Node<KotlinKind>,
      m: IdMap<KotlinKind>, m': IdMap<KotlinKind>)
    requires path != [] && ValidPath(root, path) && SameBesides(KotlinHidden(u.kind), NodeAt(root, path), u)
    requires SameUpToRanges(ReplaceAt(root, path, u), root')
    requires m.arena == Preorder(Kotlin(), root) && m'.arena == Preorder(Kotlin(), root')
    ensures IdSequence(m) == IdSequence(m')
  {
    KotlinHides(u.kind);
    ContentEditKeepsIds(Kotlin(), root, path, u, root', KotlinHidden(u.kind), m, m');
  }

  /** Any plain statements for any others: what `KotlinStatementEditKeepsIds` asks of two blocks. */
  lemma PlainKotlinBlocksDifferInHiddenStatements(t: Node<KotlinKind>, u: Node<KotlinKind>)
    requires t.kind == u.kind == KotlinBlock
    requires forall i | 0 <= i < |t.children| :: KotlinPlain(t.children[i])
    requires forall i | 0 <= i < |u.children| :: KotlinPlain(u.children[i])
    ensures SameBesides(KotlinHidden(KotlinBlock), t, u)
  {
    AllHidden(KotlinHidden(KotlinBlock), t.children);
    AllHidden(KotlinHidden(KotlinBlock), u.children);
  }

  /** Swapping a plain subtree of Kotlin body content for another, of whatever kind, keeps every id. */
  lemma KotlinSwapKeepsIds(
      root: Node<KotlinKind>, path: seq<nat>, u: Node<KotlinKind>, root': Node<KotlinKind>,
      m: IdMap<KotlinKind>, m': IdMap<KotlinKind>)
    requires path != [] && ValidPath(root, path)
    requires KotlinPlainBody(root, path) && KotlinPlainBody(ReplaceAt(root, path, u), path)
    requires SameUpToRanges(ReplaceAt(root, path, u), root')
    requires m.arena == Preorder(Kotlin(), root) && m'.arena == Preorder(Kotlin(), root')
    ensures IdSequence(m) == IdSequence(m')
  {
    var edited := ReplaceAt(root, path, u);
    KotlinPlainIsSilent(VisitAt(Kotlin(), Root(root), path).value, 0);
    KotlinPlainIsSilent(VisitAt(Kotlin(), Root(edited), path).value, 0);
    SilentSwapIsBodyEdit(Kotlin(), Root(root), path, u);
    BodyEditKeepsIds(Kotlin(), root, path, u, root', m, m');
  }
}
