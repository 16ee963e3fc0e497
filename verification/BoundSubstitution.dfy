/**
 `substitute_incl_bounds` of `crates/hir-ty/src/ty.rs`, which also rewrites the bounds
 of the variables it leaves, against the plain substitution applied twice.
 */
module BoundSubstitution {
  import opened Wrappers
  import opened Types
  import opened TypeRewrite
  import opened TypeSubstitution

  /** A variable the binding leaves has bounds the binding leaves. */
  predicate Stays(v: Ty, binding: Binding) {
    v.TypeVar? && v.scope !in binding ==> SubstituteAll(v.bounds, binding) == v.bounds
  }

  /** The bounds of the variables that stay mention nothing the binding changes. */
  ghost predicate BoundsUntouched(t: Ty, binding: Binding) {
    forall v | v in Variables(t) :: Stays(v, binding)
  }

  /**
   Rewriting the bounds too is substituting twice, wherever the variables that stay
   have nothing to rewrite in their bounds: always, if every variable is bound.
   */
  lemma InclBoundsIsSubstitutingTwice(t: Ty, binding: Binding)
    requires BoundsUntouched(t, binding)
    ensures SubstituteInclBounds(t, binding) == Substitute(Substitute(t, binding), binding)
  {
    var f := SubstitutePolicy(binding);
    RewriteFuses(t, f, f);
    forall v | v in Variables(t)
      ensures SubstituteInclBoundsPolicy(binding)(v) == Then(f, f)(v)
    {
      assert Stays(v, binding);
    }
    RewriteAgrees(t, SubstituteInclBoundsPolicy(binding), Then(f, f));
  }

  // ----- without flexible types that condition is exact

  /** Equal but for the bounds of type variables. */
  predicate EqualUpToBounds(a: Ty, b: Ty)
    decreases a
  {
    match (a, b)
    case (TypeVar(scope, _, lower), TypeVar(scope', _, lower')) => scope == scope' && lower == lower'
    case (Reference(name, args, local), Reference(name', args', local')) =>
      name == name' && local == local' && |args| == |args'|
      && forall i | 0 <= i < |args| :: EqualUpToBounds(args[i], args'[i])
    case (Array(elem), Array(elem')) => EqualUpToBounds(elem, elem')
    case (Nullable(inner), Nullable(inner')) => EqualUpToBounds(inner, inner')
    case (DefinitelyNonNull(inner), DefinitelyNonNull(inner')) => EqualUpToBounds(inner, inner')
    case (Flexible(lower, upper), Flexible(lower', upper')) =>
      EqualUpToBounds(lower, lower') && EqualUpToBounds(upper, upper')
    case (Wildcard(bound), Wildcard(bound')) =>
      if bound.Some? && bound'.Some?
      then bound.value.kind == bound'.value.kind && EqualUpToBounds(bound.value.ty, bound'.value.ty)
      else bound == bound'
    case (Intersection(members), Intersection(members')) =>
      |members| == |members'| && forall i | 0 <= i < |members| :: EqualUpToBounds(members[i], members'[i])
    case _ => a == b
  }

  lemma {:induction false} EqualUpToBoundsReflexive(a: Ty)
    ensures EqualUpToBounds(a, a)
    decreases a
  {
    match a
    case Reference(_, args, _) =>
      forall i | 0 <= i < |args| ensures EqualUpToBounds(args[i], args[i]) {
        EqualUpToBoundsReflexive(args[i]);
      }
    case Intersection(members) =>
      forall i | 0 <= i < |members| ensures EqualUpToBounds(members[i], members[i]) {
        EqualUpToBoundsReflexive(members[i]);
      }
    case Array(elem) => EqualUpToBoundsReflexive(elem);
    case Nullable(inner) => EqualUpToBoundsReflexive(inner);
    case DefinitelyNonNull(inner) => EqualUpToBoundsReflexive(inner);
    case Flexible(lower, upper) =>
      EqualUpToBoundsReflexive(lower);
      EqualUpToBoundsReflexive(upper);
    case Wildcard(bound) => if bound.Some? { EqualUpToBoundsReflexive(bound.value.ty); }
    case _ =>
  }

  predicate FlexibleFree(t: Ty)
    decreases t
  {
    !t.Flexible? && forall i | 0 <= i < |Children(t)| :: FlexibleFree(Children(t)[i])
  }

  /** Children that differ in bounds alone collapse alike, and show the difference. */
  lemma RebuildUpToBounds(t: Ty, xs: seq<Ty>, ys: seq<Ty>)
    requires !t.Flexible? && |xs| == |Children(t)| == |ys|
    requires forall i | 0 <= i < |xs| :: EqualUpToBounds(xs[i], ys[i])
    ensures EqualUpToBounds(Rebuild(t, xs), Rebuild(t, ys))
    ensures Rebuild(t, xs) == Rebuild(t, ys) <==> xs == ys
  {
    match t
    case Reference(_, _, _) =>
    case Array(_) => assert xs == [xs[0]] && ys == [ys[0]];
    case Nullable(_) => assert xs == [xs[0]] && ys == [ys[0]];
    case DefinitelyNonNull(_) => assert xs == [xs[0]] && ys == [ys[0]];
    case Wildcard(bound) => if bound.Some? { assert xs == [xs[0]] && ys == [ys[0]]; } else { assert xs == ys; }
    case Intersection(_) => if |xs| == 1 { assert xs == [xs[0]] && ys == [ys[0]]; } else if |xs| == 0 { assert xs == ys; }
    case Flexible(_, _) =>
    case _ => EqualUpToBoundsReflexive(t);
  }

  ghost predicate AlikeOnVariables(t: Ty, f: Policy, g: Policy) {
    forall v | v in Variables(t) :: EqualUpToBounds(Rewrite(v, f), Rewrite(v, g))
  }

  ghost predicate SameOnVariables(t: Ty, f: Policy, g: Policy) {
    forall v | v in Variables(t) :: Rewrite(v, f) == Rewrite(v, g)
  }

  lemma {:induction false} RewritesUpToBounds(t: Ty, f: Policy, g: Policy)
    requires VariablesOnly(f) && VariablesOnly(g) && FlexibleFree(t) && AlikeOnVariables(t, f, g)
    ensures EqualUpToBounds(Rewrite(t, f), Rewrite(t, g))
    ensures Rewrite(t, f) == Rewrite(t, g) <==> SameOnVariables(t, f, g)
    decreases t
  {
    if IsVariable(t) {
      assert Variables(t) == {t};
    } else {
      var kids := Children(t);
      var xs, ys := RewriteAll(kids, f), RewriteAll(kids, g);
      forall i | 0 <= i < |kids|
        ensures EqualUpToBounds(xs[i], ys[i])
        ensures xs[i] == ys[i] <==> SameOnVariables(kids[i], f, g)
      {
        assert AlikeOnVariables(kids[i], f, g);
        RewritesUpToBounds(kids[i], f, g);
      }
      RewriteUnfolds(t, f);
      RewriteUnfolds(t, g);
      RebuildUpToBounds(t, xs, ys);
      assert xs == ys <==> forall i | 0 <= i < |kids| :: xs[i] == ys[i];
    }
  }

  /** On one variable the two ways differ in the bounds, and only if they are to be rewritten. */
  lemma VariablesUpToBounds(v: Ty, binding: Binding, f: Policy, s: Policy)
    requires IsVariable(v) && f == SubstituteInclBoundsPolicy(binding) && s == SubstitutePolicy(binding)
    ensures EqualUpToBounds(Rewrite(v, f), Rewrite(v, Then(s, s)))
    ensures Rewrite(v, f) == Rewrite(v, Then(s, s)) <==> Stays(v, binding)
  {
    if v.InferenceVar? {
      RewriteUnfolds(v, f);
      RewriteUnfolds(v, Then(s, s));
    } else if v.scope in binding {
      assert f(v) == Then(s, s)(v);
      EqualUpToBoundsReflexive(Rewrite(v, f));
    } else {
      assert Rewrite(v, s) == v;
      assert Then(s, s)(v) == Done(v);
    }
  }

  lemma {:induction false} VariablesAreVariables(t: Ty, v: Ty)
    requires v in Variables(t)
    ensures IsVariable(v)
    decreases t
  {
    if !IsVariable(t) {
      var i :| 0 <= i < |Children(t)| && v in Variables(Children(t)[i]);
      VariablesAreVariables(Children(t)[i], v);
    }
  }

  /**
   On types without a flexible part, rewriting the bounds too is substituting twice
   exactly where the variables that stay have nothing to rewrite in their bounds.
   */
  lemma InclBoundsIsSubstitutingTwiceIff(t: Ty, binding: Binding)
    requires FlexibleFree(t)
    ensures (SubstituteInclBounds(t, binding) == Substitute(Substitute(t, binding), binding)) == BoundsUntouched(t, binding)
  {
    var f, s := SubstituteInclBoundsPolicy(binding), SubstitutePolicy(binding);
    RewriteFuses(t, s, s);
    SameWhereVariablesStay(t, binding, f, s);
    RewritesUpToBounds(t, f, Then(s, s));
  }

  lemma SameWhereVariablesStay(t: Ty, binding: Binding, f: Policy, s: Policy)
    requires f == SubstituteInclBoundsPolicy(binding) && s == SubstitutePolicy(binding)
    ensures AlikeOnVariables(t, f, Then(s, s))
    ensures SameOnVariables(t, f, Then(s, s)) == BoundsUntouched(t, binding)
  {
    forall v | v in Variables(t)
      ensures EqualUpToBounds(Rewrite(v, f), Rewrite(v, Then(s, s)))
      ensures (Rewrite(v, f) == Rewrite(v, Then(s, s))) == Stays(v, binding)
    {
      VariablesAreVariables(t, v);
      VariablesUpToBounds(v, binding, f, s);
    }
  }

  /** Whatever else it holds, a variable on its own tells the two apart exactly when its bounds change. */
  lemma InclBoundsOnVariableIff(scope: TypeVarScope, bounds: seq<Ty>, lower: Option<Ty>, binding: Binding)
    requires scope !in binding
    ensures var v := TypeVar(scope, bounds, lower);
      (SubstituteInclBounds(v, binding) == Substitute(Substitute(v, binding), binding))
      == (SubstituteAll(bounds, binding) == bounds)
  {
    var v := TypeVar(scope, bounds, lower);
    assert Substitute(v, binding) == v;
  }

  lemma RewriteAllOfPair(l: Ty, u: Ty, f: Policy)
    ensures RewriteAll([l, u], f) == [Rewrite(l, f), Rewrite(u, f)]
  {}

  lemma RewriteOfPair(l: Ty, u: Ty, f: Policy)
    requires f(Flexible(l, u)).Recur?
    ensures Rewrite(Flexible(l, u), f) == MakeFlexible(Rewrite(l, f), Rewrite(u, f))
  {
    RewriteUnfolds(Flexible(l, u), f);
    RewriteAllOfPair(l, u, f);
  }

  /** One rewrite swaps `v` and `v'`, the other leaves them: on this pair of pairs they meet. */
  lemma PairsCollapse(z: Ty, w: Ty, v: Ty, v': Ty, f: Policy, g: Policy)
    requires VariablesOnly(f) && VariablesOnly(g) && v != v'
    requires Rewrite(z, f) == v && Rewrite(v, f) == v' && Rewrite(v', f) == v && Rewrite(w, f) == v'
    requires Rewrite(z, g) == v && Rewrite(v, g) == v && Rewrite(v', g) == v' && Rewrite(w, g) == v'
    ensures var t := Flexible(Flexible(z, v), Flexible(v', w));
      Rewrite(t, f) == Flexible(v, v') && Rewrite(Rewrite(t, g), g) == Flexible(v, v')
  {
    RewriteOfPair(Flexible(z, v), Flexible(v', w), f);
    RewriteOfPair(z, v, f);
    RewriteOfPair(v', w, f);
    RewriteOfPair(Flexible(z, v), Flexible(v', w), g);
    RewriteOfPair(z, v, g);
    RewriteOfPair(v', w, g);
    RewriteOfPair(v, v', g);
  }

  function Var(scope: TypeVarScope, bounds: seq<Ty>): Ty {
    TypeVar(scope, bounds, None)
  }

  /** A binding that swaps two parameters changes the bounds `[x]` and `[y]` into each other. */
  lemma SwapSwapsBounds(x: TypeVarScope, y: TypeVarScope, binding: Binding)
    requires x in binding && y in binding && binding[x] == Var(y, []) && binding[y] == Var(x, [])
    ensures SubstituteAll([Var(x, [])], binding) == [Var(y, [])] && SubstituteAll([Var(y, [])], binding) == [Var(x, [])]
  {}

  /**
   The condition cannot be exact: where a binding swaps two parameters, flexible
   types can collapse so that the changed bounds meet in the same places.
   */
  lemma CollapseHidesBounds(binding: Binding, x: TypeVarScope, y: TypeVarScope, z: TypeVarScope, w: TypeVarScope, stays: TypeVarScope)
    requires {x, y, z, w} <= binding.Keys && stays !in binding && x != y
    requires binding[x] == Var(y, []) && binding[y] == Var(x, [])
    requires binding[z] == Var(stays, [Var(x, [])]) && binding[w] == Var(stays, [Var(y, [])])
    ensures var v, v' := Var(stays, [Var(x, [])]), Var(stays, [Var(y, [])]);
      var t := Flexible(Flexible(Var(z, []), v), Flexible(v', Var(w, [])));
      && !BoundsUntouched(t, binding)
      && SubstituteInclBounds(t, binding) == Substitute(Substitute(t, binding), binding)
  {
    var v, v' := Var(stays, [Var(x, [])]), Var(stays, [Var(y, [])]);
    SwapSwapsBounds(x, y, binding);
    OneVariable(z, [], binding);
    OneVariable(w, [], binding);
    OneVariable(stays, [Var(x, [])], binding);
    OneVariable(stays, [Var(y, [])], binding);
    PairsCollapse(Var(z, []), Var(w, []), v, v', SubstituteInclBoundsPolicy(binding), SubstitutePolicy(binding));
    InTheFirstPair(Var(z, []), v, Flexible(v', Var(w, [])));
  }

  lemma InTheFirstPair(z: Ty, v: Ty, u: Ty)
    requires v.TypeVar?
    ensures v in Variables(Flexible(Flexible(z, v), u))
  {
    var l := Flexible(z, v);
    assert v in Variables(v);
    assert Children(l)[1] == v;
    assert v in Variables(l);
    assert Children(Flexible(l, u))[0] == l;
  }

  lemma OneVariable(scope: TypeVarScope, bounds: seq<Ty>, binding: Binding)
    ensures Substitute(Var(scope, bounds), binding) == if scope in binding then binding[scope] else Var(scope, bounds)
    ensures SubstituteInclBounds(Var(scope, bounds), binding)
         == if scope in binding then Substitute(binding[scope], binding) else Var(scope, SubstituteAll(bounds, binding))
  {}
}
