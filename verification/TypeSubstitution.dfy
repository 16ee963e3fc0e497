/**
 The substitutions of `crates/hir-ty/src/ty.rs` as policies of one rewrite, and
 the algebra they obey although every rebuild may collapse its result.
 */
module TypeSubstitution {
  import opened Types
  import opened TypeRewrite

  type Binding = map<TypeVarScope, Ty>
  type Instantiation = map<nat, Ty>

  // ----- the policies

  function SubstitutePolicy(binding: Binding): Policy {
    (t: Ty) => if t.TypeVar? then Done(if t.scope in binding then binding[t.scope] else t) else Recur
  }

  function Substitute(t: Ty, binding: Binding): Ty {
    Rewrite(t, SubstitutePolicy(binding))
  }

  function SubstituteAll(ts: seq<Ty>, binding: Binding): seq<Ty> {
    RewriteAll(ts, SubstitutePolicy(binding))
  }

  /** Also rewrites the bounds of a variable `binding` does not replace. */
  function SubstituteInclBoundsPolicy(binding: Binding): Policy {
    (t: Ty) => if !t.TypeVar? then Recur
         else if t.scope in binding then Done(Substitute(binding[t.scope], binding))
         else Done(TypeVar(t.scope, SubstituteAll(t.bounds, binding), t.lowerBound))
  }

  function SubstituteInclBounds(t: Ty, binding: Binding): Ty {
    Rewrite(t, SubstituteInclBoundsPolicy(binding))
  }

  function SubstituteInferPolicy(subst: Instantiation): Policy {
    (t: Ty) => if t.InferenceVar? then Done(if t.id in subst then subst[t.id] else t) else Recur
  }

  function SubstituteInfer(t: Ty, subst: Instantiation): Ty {
    Rewrite(t, SubstituteInferPolicy(subst))
  }

  const ERASE_INFER_POLICY: Policy := (t: Ty) => if t.InferenceVar? then Done(OBJECT) else Recur

  function EraseInferVars(t: Ty): Ty {
    Rewrite(t, ERASE_INFER_POLICY)
  }

  // ----- policies that only ever replace variables

  predicate IsVariable(t: Ty) {
    t.TypeVar? || t.InferenceVar?
  }

  ghost predicate VariablesOnly(leaf: Policy) {
    forall t :: leaf(t).Done? ==> IsVariable(t)
  }

  /** The variables a rewrite of `t` can reach: not those inside a variable's bounds. */
  function Variables(t: Ty): set<Ty>
    decreases t
  {
    if IsVariable(t) then {t}
    else
      var kids := Children(t);
      set i, v | 0 <= i < |kids| && v in Variables(kids[i]) :: v
  }

  function Scopes(t: Ty): set<TypeVarScope> {
    set v | v in Variables(t) && v.TypeVar? :: v.scope
  }

  lemma {:induction false} RewriteAgrees(t: Ty, f: Policy, g: Policy)
    requires VariablesOnly(f) && VariablesOnly(g)
    requires forall v | v in Variables(t) :: f(v) == g(v)
    ensures Rewrite(t, f) == Rewrite(t, g)
    decreases t
  {
    if !IsVariable(t) {
      var kids := Children(t);
      forall i | 0 <= i < |kids| ensures Rewrite(kids[i], f) == Rewrite(kids[i], g) {
        RewriteAgrees(kids[i], f, g);
      }
      assert RewriteAll(kids, f) == RewriteAll(kids, g);
      RewriteUnfolds(t, f);
      RewriteUnfolds(t, g);
    }
  }

  // ----- fusion: two rewrites are one

  /** Rewriting a rebuilt node is rebuilding over rewritten children, collapsed or not. */
  lemma RebuildCommutes(t: Ty, kids: seq<Ty>, g: Policy)
    requires VariablesOnly(g) && !IsVariable(t) && |kids| == |Children(t)|
    ensures Rewrite(Rebuild(t, kids), g) == Rebuild(t, RewriteAll(kids, g))
  {
    var r := Rebuild(t, kids);
    if !IsVariable(r) {
      RewriteUnfolds(r, g);
    }
    match t
    case Reference(_, _, _) =>
    case Array(_) =>
      assert RewriteAll(kids, g)[0] == Rewrite(kids[0], g);
    case Nullable(_) => CollapsingWrapperCommutes(kids[0], g);
      assert RewriteAll(kids, g)[0] == Rewrite(kids[0], g);
    case DefinitelyNonNull(_) => CollapsingWrapperCommutes(kids[0], g);
      assert RewriteAll(kids, g)[0] == Rewrite(kids[0], g);
    case Flexible(_, _) =>
      assert RewriteAll(kids, g) == [Rewrite(kids[0], g), Rewrite(kids[1], g)];
    case Wildcard(bound) =>
      if bound.Some? {
        ObjectStays(kids[0], g);
        assert RewriteAll(kids, g) == [Rewrite(kids[0], g)];
      }
    case Intersection(_) =>
      if |kids| == 1 {
        assert RewriteAll(kids, g) == [Rewrite(kids[0], g)];
      }
    case _ =>
  }

  lemma CollapsingWrapperCommutes(x: Ty, g: Policy)
    requires VariablesOnly(g)
    ensures MakeNullable(Rewrite(x, g)) == Rewrite(MakeNullable(x), g)
    ensures MakeDefinitelyNonNull(Rewrite(x, g)) == Rewrite(MakeDefinitelyNonNull(x), g)
  {
    if x.Nullable? || x.DefinitelyNonNull? {
      RewriteUnfolds(x, g);
    }
    RewriteUnfolds(Nullable(x), g);
    assert RewriteAll([x], g) == [Rewrite(x, g)];
    RewriteUnfolds(DefinitelyNonNull(x), g);
  }

  lemma ObjectStays(x: Ty, g: Policy)
    requires VariablesOnly(g)
    ensures IsObject(x) ==> IsObject(Rewrite(x, g))
  {
    if IsObject(x) {
      RewriteUnfolds(x, g);
    }
  }

  /** The one policy that does the work of `f` followed by `g`. */
  function Then(f: Policy, g: Policy): Policy {
    (t: Ty) => match f(t) case Done(ty) => Done(Rewrite(ty, g)) case Recur => g(t)
  }

  lemma {:induction false} RewriteFuses(t: Ty, f: Policy, g: Policy)
    requires VariablesOnly(f) && VariablesOnly(g)
    ensures Rewrite(Rewrite(t, f), g) == Rewrite(t, Then(f, g))
    decreases t
  {
    var h := Then(f, g);
    if f(t).Recur? {
      RewriteUnfolds(t, f);
      var kids := Children(t);
      if IsVariable(t) {
        assert Rewrite(t, f) == t;
      } else {
        RebuildCommutes(t, RewriteAll(kids, f), g);
        forall i | 0 <= i < |kids| ensures Rewrite(Rewrite(kids[i], f), g) == Rewrite(kids[i], h) {
          RewriteFuses(kids[i], f, g);
        }
        assert RewriteAll(RewriteAll(kids, f), g) == RewriteAll(kids, h);
        RewriteUnfolds(t, h);
      }
    }
  }

  // ----- the substitution lemma, for both kinds of variable

  /** `first` with `second` applied to its images, and `second` elsewhere. */
  function ComposeBindings(first: Binding, second: Binding): Binding {
    map k | k in first.Keys + second.Keys ::
      if k in first then Substitute(first[k], second) else second[k]
  }

  lemma SubstitutionLemma(t: Ty, first: Binding, second: Binding)
    ensures Substitute(Substitute(t, first), second) == Substitute(t, ComposeBindings(first, second))
  {
    var f, g := SubstitutePolicy(first), SubstitutePolicy(second);
    RewriteFuses(t, f, g);
    RewriteAgrees(t, Then(f, g), SubstitutePolicy(ComposeBindings(first, second)));
  }

  function ComposeInstantiations(first: Instantiation, second: Instantiation): Instantiation {
    map k | k in first.Keys + second.Keys ::
      if k in first then SubstituteInfer(first[k], second) else second[k]
  }

  lemma InferSubstitutionLemma(t: Ty, first: Instantiation, second: Instantiation)
    ensures SubstituteInfer(SubstituteInfer(t, first), second)
         == SubstituteInfer(t, ComposeInstantiations(first, second))
  {
    var f, g := SubstituteInferPolicy(first), SubstituteInferPolicy(second);
    RewriteFuses(t, f, g);
    RewriteAgrees(t, Then(f, g), SubstituteInferPolicy(ComposeInstantiations(first, second)));
  }

  function ErasedBinding(binding: Binding): Binding {
    map k | k in binding :: EraseInferVars(binding[k])
  }

  lemma ErasePoliciesAgree(v: Ty, binding: Binding)
    ensures Then(SubstitutePolicy(binding), ERASE_INFER_POLICY)(v)
         == Then(ERASE_INFER_POLICY, SubstitutePolicy(ErasedBinding(binding)))(v)
  {
    RewriteUnfolds(OBJECT, SubstitutePolicy(ErasedBinding(binding)));
    if v.TypeVar? {
      RewriteUnfolds(v, ERASE_INFER_POLICY);
    }
  }

  /** Erasing inference variables commutes with substitution, once the images are erased too. */
  lemma EraseCommutesWithSubstitute(t: Ty, binding: Binding)
    ensures EraseInferVars(Substitute(t, binding))
         == Substitute(EraseInferVars(t), ErasedBinding(binding))
  {
    var f, g := SubstitutePolicy(binding), SubstitutePolicy(ErasedBinding(binding));
    RewriteFuses(t, f, ERASE_INFER_POLICY);
    RewriteFuses(t, ERASE_INFER_POLICY, g);
    forall v | v in Variables(t)
      ensures Then(f, ERASE_INFER_POLICY)(v) == Then(ERASE_INFER_POLICY, g)(v)
    {
      ErasePoliciesAgree(v, binding);
    }
    RewriteAgrees(t, Then(f, ERASE_INFER_POLICY), Then(ERASE_INFER_POLICY, g));
  }

  // ----- normal forms, and the types a substitution leaves alone

  /** No node below `t` would collapse on a rebuild: the types the constructors produce. */
  predicate Normal(t: Ty)
    decreases t
  {
    && Rebuild(t, Children(t)) == t
    && forall i | 0 <= i < |Children(t)| :: Normal(Children(t)[i])
  }

  lemma {:induction false} RewriteIsNormal(t: Ty, f: Policy)
    requires VariablesOnly(f)
    requires forall v | v in Variables(t) && f(v).Done? :: Normal(f(v).ty)
    ensures Normal(Rewrite(t, f))
    decreases t
  {
    if f(t).Done? {
      assert t in Variables(t);
    } else {
      var kids := Children(t);
      RewriteUnfolds(t, f);
      forall i | 0 <= i < |kids| ensures Normal(Rewrite(kids[i], f)) {
        RewriteIsNormal(kids[i], f);
      }
      RebuildIsNormal(t, RewriteAll(kids, f));
    }
  }

  lemma RebuildIsNormal(t: Ty, kids: seq<Ty>)
    requires |kids| == |Children(t)| && forall i | 0 <= i < |kids| :: Normal(kids[i])
    ensures Normal(Rebuild(t, kids))
  {
    var r := Rebuild(t, kids);
    match t
    case Reference(_, _, _) => assert Children(r) == kids;
    case Array(_) => assert Children(r) == [kids[0]];
    case Nullable(_) =>
    case DefinitelyNonNull(_) =>
    case Flexible(_, _) =>
    case Wildcard(_) =>
    case Intersection(_) => if |kids| > 1 { assert Children(r) == kids; }
    case _ =>
  }

  /** Each variable `t` reaches stays itself: its scope is unbound, or bound to it. */
  ghost predicate LeavesVariables(binding: Binding, t: Ty) {
    forall v | v in Variables(t) && v.TypeVar? && v.scope in binding :: binding[v.scope] == v
  }

  /** Under a binding that leaves its variables a type is returned as it is exactly when normal. */
  lemma UntouchedIffNormal(t: Ty, binding: Binding)
    requires LeavesVariables(binding, t)
    ensures Substitute(t, binding) == t <==> Normal(t)
  {
    var f := SubstitutePolicy(binding);
    RewriteAgrees(t, f, SubstitutePolicy(map[]));
    EmptyBinding(t);
  }

  lemma {:induction false} EmptyBinding(t: Ty)
    ensures Size(Substitute(t, map[])) <= Size(t)
    ensures Substitute(t, map[]) == t <==> Normal(t)
    decreases t
  {
    var f := SubstitutePolicy(map[]);
    if !t.TypeVar? {
      var kids := Children(t);
      RewriteUnfolds(t, f);
      var rs := RewriteAll(kids, f);
      forall i | 0 <= i < |kids|
        ensures Size(rs[i]) <= Size(kids[i]) && (rs[i] == kids[i] <==> Normal(kids[i]))
      {
        EmptyBinding(kids[i]);
      }
      SizeAllMonotone(rs, kids);
      RebuildSize(t, rs);
      SizeUnfolds(t);
      if Rebuild(t, rs) == t {
        RebuildKeepsChildren(t, rs);
      } else if rs == kids {
        assert !Normal(t);
      } else {
        var i :| 0 <= i < |kids| && rs[i] != kids[i];
        assert !Normal(kids[i]);
      }
    }
  }

  lemma {:induction false} SizeAllMonotone(xs: seq<Ty>, ys: seq<Ty>)
    requires |xs| == |ys| && forall i | 0 <= i < |xs| :: Size(xs[i]) <= Size(ys[i])
    ensures SizeAll(xs) <= SizeAll(ys)
  {
    if xs != [] {
      SizeAllStep(xs);
      SizeAllStep(ys);
      SizeAllMonotone(xs[1..], ys[1..]);
    }
  }

  lemma RebuildSize(t: Ty, kids: seq<Ty>)
    requires |kids| == |Children(t)|
    ensures Size(Rebuild(t, kids)) <= 1 + SizeAll(kids)
    ensures Children(Rebuild(t, kids)) == kids || Size(Rebuild(t, kids)) <= SizeAll(kids)
         || (t.Intersection? && kids == []) || t.Wildcard?
  {
    var r := Rebuild(t, kids);
    SizeUnfolds(r);
    if kids != [] {
      SizeAllBounds(kids, 0);
    }
    match t
    case Reference(_, _, _) =>
    case Array(_) => assert Children(r) == kids;
    case Nullable(_) => assert r == kids[0] || Children(r) == kids;
    case DefinitelyNonNull(_) => assert r == kids[0] || Children(r) == kids;
    case Flexible(_, _) => assert r == kids[0] || Children(r) == kids;
    case Wildcard(_) => assert Children(r) == [] || Children(r) == kids;
    case Intersection(_) =>
    case _ =>
  }

  lemma RebuildKeepsChildren(t: Ty, rs: seq<Ty>)
    requires |rs| == |Children(t)| && Rebuild(t, rs) == t
    requires SizeAll(rs) <= SizeAll(Children(t))
    ensures rs == Children(t)
  {
    RebuildSize(t, rs);
    SizeUnfolds(t);
  }
}
