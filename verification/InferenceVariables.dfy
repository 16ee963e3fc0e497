/**
 The test whether a type contains an inference variable (`contains_infer_var` of
 `crates/hir-ty/src/ty.rs`), against the variables a rewrite reaches.
 */
module InferenceVariables {
  import opened Types
  import opened TypeRewrite
  import opened TypeSubstitution

  predicate ContainsInferVar(t: Ty)
    decreases t
  {
    match t
    case InferenceVar(_) => true
    case Reference(_, args, _) => exists i | 0 <= i < |args| :: ContainsInferVar(args[i])
    case Array(elem) => ContainsInferVar(elem)
    case Wildcard(bound) => bound.Some? && ContainsInferVar(bound.value.ty)
    case Intersection(members) => exists i | 0 <= i < |members| :: ContainsInferVar(members[i])
    case _ => false
  }

  predicate ReachesInferVar(t: Ty) {
    exists v | v in Variables(t) :: v.InferenceVar?
  }

  predicate WrapperFree(t: Ty)
    decreases t
  {
    && !t.Nullable? && !t.DefinitelyNonNull? && !t.Flexible?
    && forall i | 0 <= i < |Children(t)| :: WrapperFree(Children(t)[i])
  }

  /** The test never over-reports, and is exact on types without a Kotlin wrapper. */
  lemma {:induction false} ContainsInferVarIsSound(t: Ty)
    ensures ContainsInferVar(t) ==> ReachesInferVar(t)
    ensures WrapperFree(t) ==> (ContainsInferVar(t) <==> ReachesInferVar(t))
    decreases t
  {
    if !IsVariable(t) {
      var kids := Children(t);
      forall i | 0 <= i < |kids|
        ensures ContainsInferVar(kids[i]) ==> ReachesInferVar(kids[i])
        ensures ReachesInferVar(kids[i]) ==> ReachesInferVar(t)
        ensures WrapperFree(kids[i]) ==> (ContainsInferVar(kids[i]) <==> ReachesInferVar(kids[i]))
      {
        ContainsInferVarIsSound(kids[i]);
        if ReachesInferVar(kids[i]) {
          var v :| v in Variables(kids[i]) && v.InferenceVar?;
          assert v in Variables(t);
        }
      }
      if WrapperFree(t) && ReachesInferVar(t) {
        var v :| v in Variables(t) && v.InferenceVar?;
        var i :| 0 <= i < |kids| && v in Variables(kids[i]);
        assert ReachesInferVar(kids[i]);
      }
      match t
      case Array(elem) => assert kids[0] == elem;
      case Wildcard(bound) => if bound.Some? { assert kids[0] == bound.value.ty; }
      case _ =>
    }
  }

  // ----- where the test is exact

  predicate IsWrapper(t: Ty) {
    t.Nullable? || t.DefinitelyNonNull? || t.Flexible?
  }

  /** The variables a walk finds that does not enter the Kotlin wrappers. */
  function Bare(t: Ty): set<Ty>
    decreases t
  {
    if IsVariable(t) then {t}
    else if IsWrapper(t) then {}
    else
      var kids := Children(t);
      set i, v | 0 <= i < |kids| && v in Bare(kids[i]) :: v
  }

  /** The test answers for the variables outside every wrapper, no more and no less. */
  lemma {:induction false} ContainsInferVarIff(t: Ty)
    ensures ContainsInferVar(t) <==> exists v | v in Bare(t) :: v.InferenceVar?
    decreases t
  {
    if t.InferenceVar? {
      assert t in Bare(t);
    } else if !IsVariable(t) && !IsWrapper(t) {
      var kids := Children(t);
      ContainsThroughChildren(t);
      forall i | 0 <= i < |kids| ensures ContainsInferVar(kids[i]) <==> exists v | v in Bare(kids[i]) :: v.InferenceVar? {
        ContainsInferVarIff(kids[i]);
      }
      if ContainsInferVar(t) {
        var i :| 0 <= i < |kids| && ContainsInferVar(kids[i]);
        var v :| v in Bare(kids[i]) && v.InferenceVar?;
        assert v in Bare(t);
      }
    }
  }

  lemma ContainsThroughChildren(t: Ty)
    requires !IsVariable(t) && !IsWrapper(t)
    ensures ContainsInferVar(t) <==> exists i | 0 <= i < |Children(t)| :: ContainsInferVar(Children(t)[i])
  {
    var kids := Children(t);
    match t
    case Reference(_, args, _) => assert kids == args;
    case Intersection(members) => assert kids == members;
    case Array(elem) => assert kids[0] == elem;
    case Wildcard(bound) => if bound.Some? { assert kids[0] == bound.value.ty; }
    case _ =>
  }

  function Subterms(t: Ty): set<Ty>
    decreases t
  {
    var kids := Children(t);
    {t} + set i, s | 0 <= i < |kids| && s in Subterms(kids[i]) :: s
  }

  /** The test tells for `t` what a rewrite can reach. */
  predicate ExactOn(t: Ty) {
    ContainsInferVar(t) <==> ReachesInferVar(t)
  }

  /**
   The test is exact on a type and on everything in it exactly when no wrapper in the
   type has an inference variable below it.
   */
  lemma ExactThroughoutIff(t: Ty)
    ensures (forall s | s in Subterms(t) :: ExactOn(s))
       <==> (forall w | w in Subterms(t) && IsWrapper(w) :: !ReachesInferVar(w))
  {
    if forall w | w in Subterms(t) && IsWrapper(w) :: !ReachesInferVar(w) {
      forall s | s in Subterms(t) ensures ExactOn(s) {
        ExactWithoutHidden(t, s);
      }
    }
  }

  lemma {:induction false} ExactWithoutHidden(t: Ty, s: Ty)
    requires s in Subterms(t)
    requires forall w | w in Subterms(t) && IsWrapper(w) :: !ReachesInferVar(w)
    ensures ExactOn(s)
    decreases s
  {
    if !IsVariable(s) && !IsWrapper(s) {
      var kids := Children(s);
      forall i | 0 <= i < |kids| ensures ExactOn(kids[i]) {
        SubtermsBelow(t, s, i);
        ExactWithoutHidden(t, kids[i]);
      }
      ContainsThroughChildren(s);
      ReachesThroughChildren(s);
    } else if IsVariable(s) {
      assert Variables(s) == {s};
    }
  }

  lemma ReachesThroughChildren(t: Ty)
    requires !IsVariable(t)
    ensures ReachesInferVar(t) <==> exists i | 0 <= i < |Children(t)| :: ReachesInferVar(Children(t)[i])
  {
    var kids := Children(t);
    if ReachesInferVar(t) {
      var v :| v in Variables(t) && v.InferenceVar?;
      var i :| 0 <= i < |kids| && v in Variables(kids[i]);
      assert ReachesInferVar(kids[i]);
    }
    if i :| 0 <= i < |kids| && ReachesInferVar(kids[i]) {
      var v :| v in Variables(kids[i]) && v.InferenceVar?;
      assert v in Variables(t);
    }
  }

  lemma {:induction false} SubtermsBelow(t: Ty, s: Ty, i: nat)
    requires s in Subterms(t) && i < |Children(s)|
    ensures Children(s)[i] in Subterms(t)
    decreases t
  {
    if s == t {
      assert Children(t)[i] in Subterms(Children(t)[i]);
    } else {
      var j :| 0 <= j < |Children(t)| && s in Subterms(Children(t)[j]);
      SubtermsBelow(Children(t)[j], s, i);
    }
  }

  /** A wrapper hides its inference variables from the test, not from the rewrite. */
  lemma WrapperHidesInferVar(id: nat, ty: Ty)
    requires !ty.Nullable? && ty != InferenceVar(id)
    ensures !ContainsInferVar(Nullable(InferenceVar(id)))
    ensures SubstituteInfer(Nullable(InferenceVar(id)), map[id := ty]) == Nullable(ty)
  {
    var f := SubstituteInferPolicy(map[id := ty]);
    RewriteUnfolds(Nullable(InferenceVar(id)), f);
    assert RewriteAll([InferenceVar(id)], f) == [ty];
  }
}
