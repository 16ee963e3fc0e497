/**
 What a rewrite returns, written with the plain constructors: node by node, and for
 the types it returns unchanged.
 */
module NormalForms {
  import opened Wrappers
  import opened Types
  import opened TypeRewrite
  import opened TypeSubstitution

  /** `? extends T` of this bound is `?`. */
  predicate ExtendsObject(b: WildcardBound) {
    b.kind.Upper? && b.ty.Reference? && b.ty.name == "java.lang.Object" && |b.ty.args| == 0
  }

  /** No `T??`, no `T & Any & Any`, no `L..L`, no `? extends Object`, no intersection of fewer than two. */
  predicate InNormalForm(t: Ty)
    decreases t
  {
    match t
    case Reference(_, args, _) => forall i | 0 <= i < |args| :: InNormalForm(args[i])
    case Array(elem) => InNormalForm(elem)
    case Nullable(inner) => !inner.Nullable? && InNormalForm(inner)
    case DefinitelyNonNull(inner) => !inner.DefinitelyNonNull? && InNormalForm(inner)
    case Flexible(lower, upper) => lower != upper && InNormalForm(lower) && InNormalForm(upper)
    case Wildcard(bound) => bound.Some? ==> !ExtendsObject(bound.value) && InNormalForm(bound.value.ty)
    case Intersection(members) => |members| >= 2 && forall i | 0 <= i < |members| :: InNormalForm(members[i])
    case _ => true
  }

  lemma ReferenceRewrites(t: Ty, f: Policy)
    requires f(t).Recur? && t.Reference?
    ensures Rewrite(t, f).Reference? && Rewrite(t, f).name == t.name && Rewrite(t, f).local == t.local
    ensures |Rewrite(t, f).args| == |t.args|
    ensures forall i | 0 <= i < |t.args| :: Rewrite(t, f).args[i] == Rewrite(t.args[i], f)
  {
    RewriteUnfolds(t, f);
  }

  lemma ArrayRewrites(t: Ty, f: Policy)
    requires f(t).Recur? && t.Array?
    ensures Rewrite(t, f) == Array(Rewrite(t.elem, f))
  {
    RewriteUnfolds(t, f);
    assert RewriteAll([t.elem], f)[0] == Rewrite(t.elem, f);
  }

  lemma NullableRewrites(t: Ty, f: Policy)
    requires f(t).Recur? && t.Nullable?
    ensures var r := Rewrite(t.inner, f); Rewrite(t, f) == if r.Nullable? then r else Nullable(r)
  {
    RewriteUnfolds(t, f);
    assert RewriteAll([t.inner], f)[0] == Rewrite(t.inner, f);
  }

  lemma DefinitelyNonNullRewrites(t: Ty, f: Policy)
    requires f(t).Recur? && t.DefinitelyNonNull?
    ensures var r := Rewrite(t.inner, f); Rewrite(t, f) == if r.DefinitelyNonNull? then r else DefinitelyNonNull(r)
  {
    RewriteUnfolds(t, f);
    assert RewriteAll([t.inner], f)[0] == Rewrite(t.inner, f);
  }

  lemma FlexibleRewrites(t: Ty, f: Policy)
    requires f(t).Recur? && t.Flexible?
    ensures var l, u := Rewrite(t.lower, f), Rewrite(t.upper, f); Rewrite(t, f) == if l == u then l else Flexible(l, u)
  {
    RewriteUnfolds(t, f);
    var rs := RewriteAll([t.lower, t.upper], f);
    assert rs[0] == Rewrite(t.lower, f) && rs[1] == Rewrite(t.upper, f);
  }

  /** The bound keeps its direction; only `? extends Object` loses it. */
  lemma WildcardRewrites(t: Ty, f: Policy)
    requires f(t).Recur? && t.Wildcard?
    ensures t.bound.None? ==> Rewrite(t, f) == Wildcard(None)
    ensures t.bound.Some? ==>
      var b := WildcardBound(t.bound.value.kind, Rewrite(t.bound.value.ty, f));
      Rewrite(t, f) == if ExtendsObject(b) then Wildcard(None) else Wildcard(Some(b))
  {
    RewriteUnfolds(t, f);
    if t.bound.Some? {
      assert RewriteAll([t.bound.value.ty], f)[0] == Rewrite(t.bound.value.ty, f);
    }
  }

  lemma IntersectionRewrites(t: Ty, f: Policy)
    requires f(t).Recur? && t.Intersection?
    ensures |t.members| == 0 ==> Rewrite(t, f) == Error
    ensures |t.members| == 1 ==> Rewrite(t, f) == Rewrite(t.members[0], f)
    ensures |t.members| > 1 ==>
      && Rewrite(t, f).Intersection? && |Rewrite(t, f).members| == |t.members|
      && forall i | 0 <= i < |t.members| :: Rewrite(t, f).members[i] == Rewrite(t.members[i], f)
  {
    RewriteUnfolds(t, f);
    assert |t.members| == 1 ==> RewriteAll(t.members, f)[0] == Rewrite(t.members[0], f);
  }

  /** Every other type has nothing to rewrite below it. */
  lemma LeavesRewrite(t: Ty, f: Policy)
    requires f(t).Recur?
    requires t.Void? || t.Null? || t.Primitive? || t.Error? || t.TypeVar? || t.InferenceVar?
    ensures Rewrite(t, f) == t
  {
    RewriteUnfolds(t, f);
  }

  /** The node itself is one no constructor returns. */
  predicate Collapses(t: Ty) {
    match t
    case Nullable(inner) => inner.Nullable?
    case DefinitelyNonNull(inner) => inner.DefinitelyNonNull?
    case Flexible(lower, upper) => lower == upper
    case Wildcard(bound) => bound.Some? && ExtendsObject(bound.value)
    case Intersection(members) => |members| < 2
    case _ => false
  }

  lemma RebuiltUnlessCollapsing(t: Ty)
    ensures Rebuild(t, Children(t)) == t <==> !Collapses(t)
  {
    if t.Intersection? && |t.members| == 1 {
      assert t.members[0] < t;
    }
  }

  lemma NormalFormThroughChildren(t: Ty)
    ensures InNormalForm(t) <==> !Collapses(t) && forall i | 0 <= i < |Children(t)| :: InNormalForm(Children(t)[i])
  {
    var kids := Children(t);
    match t
    case Reference(_, args, _) => assert kids == args;
    case Intersection(members) => assert kids == members;
    case Array(elem) => assert kids[0] == elem;
    case Nullable(inner) => assert kids[0] == inner;
    case DefinitelyNonNull(inner) => assert kids[0] == inner;
    case Flexible(lower, upper) => assert kids[0] == lower && kids[1] == upper;
    case Wildcard(bound) => if bound.Some? { assert kids[0] == bound.value.ty; }
    case _ =>
  }

  /** The types a rebuild leaves alone are those in normal form. */
  lemma {:induction false} NormalIffInNormalForm(t: Ty)
    ensures Normal(t) <==> InNormalForm(t)
    decreases t
  {
    forall i | 0 <= i < |Children(t)| ensures Normal(Children(t)[i]) <==> InNormalForm(Children(t)[i]) {
      NormalIffInNormalForm(Children(t)[i]);
    }
    RebuiltUnlessCollapsing(t);
    NormalFormThroughChildren(t);
  }

  /** Under a binding that leaves its variables, a type comes back as it was exactly when in normal form. */
  lemma UnchangedIffInNormalForm(t: Ty, binding: Binding)
    requires LeavesVariables(binding, t)
    ensures Substitute(t, binding) == t <==> InNormalForm(t)
  {
    UntouchedIffNormal(t, binding);
    NormalIffInNormalForm(t);
  }

  lemma RewritesAreInNormalForm(t: Ty, f: Policy)
    requires VariablesOnly(f) && forall v | v in Variables(t) && f(v).Done? :: InNormalForm(f(v).ty)
    ensures InNormalForm(Rewrite(t, f))
  {
    forall v | v in Variables(t) && f(v).Done? ensures Normal(f(v).ty) {
      NormalIffInNormalForm(f(v).ty);
    }
    RewriteIsNormal(t, f);
    NormalIffInNormalForm(Rewrite(t, f));
  }

  // ----- what each policy puts in place of a variable

  lemma VariablesSubstitute(scope: TypeVarScope, bounds: seq<Ty>, lower: Option<Ty>, binding: Binding)
    ensures var v := TypeVar(scope, bounds, lower);
      && Substitute(v, binding) == (if scope in binding then binding[scope] else v)
      && SubstituteInclBounds(v, binding) ==
           (if scope in binding then Substitute(binding[scope], binding)
            else TypeVar(scope, SubstituteAll(bounds, binding), lower))
      && (forall subst :: SubstituteInfer(v, subst) == v) && EraseInferVars(v) == v
  {
    var v := TypeVar(scope, bounds, lower);
    forall subst ensures SubstituteInfer(v, subst) == v {
      LeavesRewrite(v, SubstituteInferPolicy(subst));
    }
    LeavesRewrite(v, ERASE_INFER_POLICY);
  }

  lemma InferenceVariablesSubstitute(id: nat, subst: Instantiation)
    ensures SubstituteInfer(InferenceVar(id), subst) == if id in subst then subst[id] else InferenceVar(id)
    ensures EraseInferVars(InferenceVar(id)) == Reference("java.lang.Object", [], None)
    ensures forall binding :: Substitute(InferenceVar(id), binding) == InferenceVar(id)
  {
    forall binding ensures Substitute(InferenceVar(id), binding) == InferenceVar(id) {
      LeavesRewrite(InferenceVar(id), SubstitutePolicy(binding));
    }
  }
}
