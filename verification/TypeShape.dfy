/**
 `same_shape` and `erasure`: the comparison that ignores how a recursive bound
 was truncated is a congruence for every rewrite, but not for erasure.
 */
module TypeShape {
  import opened Wrappers
  import opened Types
  import opened TypeRewrite
  import opened TypeSubstitution

  predicate SameShape(a: Ty, b: Ty)
    decreases a
  {
    match (a, b)
    case (Reference(name, args, local), Reference(name', args', local')) =>
      && name == name' && local == local' && |args| == |args'|
      && forall i | 0 <= i < |args| :: SameShape(args[i], args'[i])
    case (Array(elem), Array(elem')) => SameShape(elem, elem')
    case (Wildcard(bound), Wildcard(bound')) =>
      if bound.Some? && bound'.Some?
      then bound.value.kind == bound'.value.kind && SameShape(bound.value.ty, bound'.value.ty)
      else bound == bound'
    case (TypeVar(scope, _, _), TypeVar(scope', _, _)) => scope == scope'
    case (Intersection(members), Intersection(members')) =>
      && |members| == |members'|
      && forall i | 0 <= i < |members| :: SameShape(members[i], members'[i])
    case _ => a == b
  }

  // ----- what the comparison ignores

  /** The type without the bounds of its variables, but for what stands inside a Kotlin wrapper. */
  function Blank(t: Ty): Ty
    decreases t
  {
    match t
    case TypeVar(scope, _, _) => TypeVar(scope, [], None)
    case Reference(name, args, local) =>
      Reference(name, seq(|args|, i requires 0 <= i < |args| => Blank(args[i])), local)
    case Array(elem) => Array(Blank(elem))
    case Wildcard(bound) =>
      Wildcard(if bound.Some? then Some(WildcardBound(bound.value.kind, Blank(bound.value.ty))) else None)
    case Intersection(members) =>
      Intersection(seq(|members|, i requires 0 <= i < |members| => Blank(members[i])))
    case _ => t
  }

  function BlankAll(ts: seq<Ty>): (bs: seq<Ty>)
    ensures |bs| == |ts| && forall i | 0 <= i < |ts| :: bs[i] == Blank(ts[i])
  {
    seq(|ts|, i requires 0 <= i < |ts| => Blank(ts[i]))
  }

  lemma BlankUnfolds(t: Ty)
    ensures t.Reference? ==> Blank(t) == Reference(t.name, BlankAll(t.args), t.local)
    ensures t.Intersection? ==> Blank(t) == Intersection(BlankAll(t.members))
  {
    if t.Reference? {
      assert Blank(t).args == BlankAll(t.args);
    } else if t.Intersection? {
      assert Blank(t).members == BlankAll(t.members);
    }
  }

  predicate SameShapes(xs: seq<Ty>, ys: seq<Ty>) {
    |xs| == |ys| && forall i | 0 <= i < |xs| :: SameShape(xs[i], ys[i])
  }

  lemma {:induction false} SameShapesIff(xs: seq<Ty>, ys: seq<Ty>, bound: Ty)
    requires forall i | 0 <= i < |xs| :: xs[i] < bound
    ensures SameShapes(xs, ys) <==> BlankAll(xs) == BlankAll(ys)
    decreases bound, 0
  {
    if |xs| == |ys| {
      forall i | 0 <= i < |xs| ensures SameShape(xs[i], ys[i]) <==> BlankAll(xs)[i] == BlankAll(ys)[i] {
        SameShapeIff(xs[i], ys[i]);
      }
      assert BlankAll(xs) == BlankAll(ys) <==> forall i | 0 <= i < |xs| :: BlankAll(xs)[i] == BlankAll(ys)[i];
    }
  }

  /** Two types have one shape exactly when they are equal without those bounds. */
  lemma {:induction false} SameShapeIff(a: Ty, b: Ty)
    ensures SameShape(a, b) <==> Blank(a) == Blank(b)
    decreases a, 1
  {
    BlankUnfolds(a);
    BlankUnfolds(b);
    if a.Reference? && b.Reference? {
      SameShapesIff(a.args, b.args, a);
      assert SameShape(a, b) <==> a.name == b.name && a.local == b.local && SameShapes(a.args, b.args);
    } else if a.Intersection? && b.Intersection? {
      SameShapesIff(a.members, b.members, a);
      assert SameShape(a, b) <==> SameShapes(a.members, b.members);
    } else if a.Array? && b.Array? {
      SameShapeIff(a.elem, b.elem);
    } else if a.Wildcard? && b.Wildcard? && a.bound.Some? && b.bound.Some? {
      SameShapeIff(a.bound.value.ty, b.bound.value.ty);
    }
  }

  // ----- an equivalence that equality refines

  lemma SameShapeReflexive(a: Ty)
    ensures SameShape(a, a)
  {
    SameShapeIff(a, a);
  }

  lemma SameShapeSymmetric(a: Ty, b: Ty)
    requires SameShape(a, b)
    ensures SameShape(b, a)
  {
    SameShapeIff(a, b);
    SameShapeIff(b, a);
  }

  lemma SameShapeTransitive(a: Ty, b: Ty, c: Ty)
    requires SameShape(a, b) && SameShape(b, c)
    ensures SameShape(a, c)
  {
    SameShapeIff(a, b);
    SameShapeIff(b, c);
    SameShapeIff(a, c);
  }

  // ----- a congruence for rewriting

  /** The policy cannot tell same-shaped nodes apart, but by returning same-shaped results. */
  ghost predicate RespectsShape(leaf: Policy) {
    forall a, b | SameShape(a, b) ::
      && (leaf(a).Done? <==> leaf(b).Done?)
      && (leaf(a).Done? ==> SameShape(leaf(a).ty, leaf(b).ty))
  }

  /** Even when `? extends Object` or a one-member intersection collapses on the way. */
  lemma {:induction false} RewriteRespectsShape(a: Ty, b: Ty, leaf: Policy)
    requires RespectsShape(leaf) && SameShape(a, b)
    ensures SameShape(Rewrite(a, leaf), Rewrite(b, leaf))
    decreases a
  {
    assert leaf(a).Done? <==> leaf(b).Done?;
    if a == b {
      SameShapeReflexive(Rewrite(a, leaf));
    } else if leaf(a).Recur? {
      var xs, ys := Children(a), Children(b);
      RewriteUnfolds(a, leaf);
      RewriteUnfolds(b, leaf);
      SameShapeChildren(a, b);
      forall i | 0 <= i < |xs| ensures SameShape(Rewrite(xs[i], leaf), Rewrite(ys[i], leaf)) {
        RewriteRespectsShape(xs[i], ys[i], leaf);
      }
      RebuildRespectsShape(a, b, RewriteAll(xs, leaf), RewriteAll(ys, leaf));
    }
  }

  lemma SameShapeChildren(a: Ty, b: Ty)
    requires SameShape(a, b) && a != b
    ensures |Children(a)| == |Children(b)|
    ensures forall i | 0 <= i < |Children(a)| :: SameShape(Children(a)[i], Children(b)[i])
  {}

  lemma RebuildRespectsShape(a: Ty, b: Ty, xs: seq<Ty>, ys: seq<Ty>)
    requires SameShape(a, b) && a != b && |xs| == |Children(a)| && |ys| == |Children(b)| == |xs|
    requires forall i | 0 <= i < |xs| :: SameShape(xs[i], ys[i])
    ensures SameShape(Rebuild(a, xs), Rebuild(b, ys))
  {}

  lemma SubstituteRespectsShape(a: Ty, b: Ty, binding: Binding)
    requires SameShape(a, b)
    ensures SameShape(Substitute(a, binding), Substitute(b, binding))
  {
    var leaf := SubstitutePolicy(binding);
    forall x, y | SameShape(x, y)
      ensures (leaf(x).Done? <==> leaf(y).Done?) && (leaf(x).Done? ==> SameShape(leaf(x).ty, leaf(y).ty))
    {
      if leaf(x).Done? {
        SameShapeReflexive(leaf(x).ty);
      }
    }
    RewriteRespectsShape(a, b, leaf);
  }

  lemma SubstituteInferRespectsShape(a: Ty, b: Ty, subst: Instantiation)
    requires SameShape(a, b)
    ensures SameShape(SubstituteInfer(a, subst), SubstituteInfer(b, subst))
  {
    var leaf := SubstituteInferPolicy(subst);
    forall x, y | SameShape(x, y)
      ensures (leaf(x).Done? <==> leaf(y).Done?) && (leaf(x).Done? ==> SameShape(leaf(x).ty, leaf(y).ty))
    {
      if leaf(x).Done? {
        SameShapeReflexive(leaf(x).ty);
      }
    }
    RewriteRespectsShape(a, b, leaf);
  }

  // ----- erasure

  function Erasure(t: Ty): Ty
    decreases t
  {
    match t
    case Reference(name, _, local) => Reference(name, [], local)
    case Array(elem) => Array(Erasure(elem))
    case TypeVar(_, bounds, _) => if |bounds| > 0 then Erasure(bounds[0]) else OBJECT
    case Intersection(members) => if |members| > 0 then Erasure(members[0]) else OBJECT
    case _ => t
  }

  lemma {:induction false} ErasureIdempotent(t: Ty)
    ensures Erasure(Erasure(t)) == Erasure(t)
    decreases t
  {
    match t
    case Array(elem) => ErasureIdempotent(elem);
    case TypeVar(_, bounds, _) => if |bounds| > 0 { ErasureIdempotent(bounds[0]); }
    case Intersection(members) => if |members| > 0 { ErasureIdempotent(members[0]); }
    case _ =>
  }

  /** How many array brackets the leftmost chain of elements, bounds and members passes. */
  function ChainDepth(t: Ty): nat
    decreases t
  {
    match t
    case Array(elem) => 1 + ChainDepth(elem)
    case TypeVar(_, bounds, _) => if |bounds| > 0 then ChainDepth(bounds[0]) else 0
    case Intersection(members) => if |members| > 0 then ChainDepth(members[0]) else 0
    case _ => 0
  }

  /** Where that chain ends; an unbounded variable counts as `Object`. */
  function ChainHead(t: Ty): (h: Ty)
    ensures !h.Array? && !h.TypeVar? && !h.Intersection?
    decreases t
  {
    match t
    case Array(elem) => ChainHead(elem)
    case TypeVar(_, bounds, _) => if |bounds| > 0 then ChainHead(bounds[0]) else OBJECT
    case Intersection(members) => if |members| > 0 then ChainHead(members[0]) else OBJECT
    case _ => t
  }

  /** Two chain ends denote one class, or are the same non-class type up to shape. */
  predicate SameHead(h: Ty, h': Ty) {
    if h.Reference? && h'.Reference? then h.name == h'.name && h.local == h'.local else SameShape(h, h')
  }

  lemma {:induction false} ErasureIsTower(t: Ty)
    ensures Erasure(t) == Tower(ChainDepth(t), Erasure(ChainHead(t)))
    decreases t
  {
    match t
    case Array(elem) => ErasureIsTower(elem);
    case TypeVar(_, bounds, _) => if |bounds| > 0 { ErasureIsTower(bounds[0]); }
    case Intersection(members) => if |members| > 0 { ErasureIsTower(members[0]); }
    case _ =>
  }

  /** What an erasure is: arrays over a bare class, or over a type that erases to itself. */
  lemma ErasureIs(t: Ty)
    ensures var h := ChainHead(t);
      Erasure(t) == Tower(ChainDepth(t), if h.Reference? then Reference(h.name, [], h.local) else h)
  {
    ErasureIsTower(t);
  }

  lemma {:induction false} SameTowerIff(n: nat, h: Ty, n': nat, h': Ty)
    requires !h.Array? && !h'.Array?
    ensures SameShape(Tower(n, h), Tower(n', h')) <==> n == n' && SameShape(h, h')
    decreases n
  {
    if n > 0 && n' > 0 {
      SameTowerIff(n - 1, h, n' - 1, h');
    }
  }

  lemma HeadsErase(h: Ty, h': Ty)
    requires !h.Array? && !h.TypeVar? && !h.Intersection?
    requires !h'.Array? && !h'.TypeVar? && !h'.Intersection?
    ensures !Erasure(h).Array? && (SameShape(Erasure(h), Erasure(h')) <==> SameHead(h, h'))
  {}

  /**
   Two types erase to the same shape exactly when their leftmost chains pass equally
   many arrays and end in the same class, whatever else they hold.
   */
  lemma ErasuresAgreeIff(a: Ty, b: Ty)
    ensures SameShape(Erasure(a), Erasure(b))
       <==> ChainDepth(a) == ChainDepth(b) && SameHead(ChainHead(a), ChainHead(b))
  {
    ErasureIsTower(a);
    ErasureIsTower(b);
    HeadsErase(ChainHead(a), ChainHead(b));
    HeadsErase(ChainHead(b), ChainHead(a));
    SameTowerIff(ChainDepth(a), Erasure(ChainHead(a)), ChainDepth(b), Erasure(ChainHead(b)));
  }

  // ----- truncated bounds

  /**
   `s` is `t` with the bounds of some variables cut off, as the recursion guard of
   bound resolution leaves them. What `same_shape` compares by equality stays whole.
   */
  predicate Truncates(t: Ty, s: Ty)
    decreases t
  {
    match (t, s)
    case (Reference(name, args, local), Reference(name', args', local')) =>
      name == name' && local == local' && |args| == |args'|
      && forall i | 0 <= i < |args| :: Truncates(args[i], args'[i])
    case (Array(elem), Array(elem')) => Truncates(elem, elem')
    case (Wildcard(bound), Wildcard(bound')) =>
      if bound.Some? && bound'.Some?
      then bound.value.kind == bound'.value.kind && Truncates(bound.value.ty, bound'.value.ty)
      else bound == bound'
    case (TypeVar(scope, bounds, _), TypeVar(scope', bounds', _)) =>
      scope == scope'
      && (bounds' == []
          || (|bounds| == |bounds'| && forall i | 0 <= i < |bounds| :: Truncates(bounds[i], bounds'[i])))
    case (Intersection(members), Intersection(members')) =>
      |members| == |members'| && forall i | 0 <= i < |members| :: Truncates(members[i], members'[i])
    case _ => t == s
  }

  /** Shape does not see a truncation: what the comparison is for. */
  lemma {:induction false} TruncationKeepsShape(t: Ty, s: Ty)
    requires Truncates(t, s)
    ensures SameShape(t, s)
    decreases t
  {
    match (t, s)
    case (Reference(_, args, _), Reference(_, args', _)) =>
      forall i | 0 <= i < |args| ensures SameShape(args[i], args'[i]) {
        TruncationKeepsShape(args[i], args'[i]);
      }
    case (Array(elem), Array(elem')) => TruncationKeepsShape(elem, elem');
    case (Wildcard(bound), Wildcard(bound')) =>
      if bound.Some? && bound'.Some? {
        TruncationKeepsShape(bound.value.ty, bound'.value.ty);
      }
    case (Intersection(members), Intersection(members')) =>
      forall i | 0 <= i < |members| ensures SameShape(members[i], members'[i]) {
        TruncationKeepsShape(members[i], members'[i]);
      }
    case _ =>
  }

  /** The variable on the leftmost chain of `t` whose bounds `s` lacks. */
  function CutOnChain(t: Ty, s: Ty): Option<Ty>
    decreases t
  {
    match (t, s)
    case (Array(elem), Array(elem')) => CutOnChain(elem, elem')
    case (TypeVar(_, bounds, _), TypeVar(_, bounds', _)) =>
      if bounds == [] then None else if bounds' == [] then Some(t) else CutOnChain(bounds[0], bounds'[0])
    case (Intersection(members), Intersection(members')) =>
      if members == [] || members' == [] then None else CutOnChain(members[0], members'[0])
    case _ => None
  }

  /** The variable's own chain leads straight to `Object`. */
  predicate BoundedByObject(v: Ty) {
    ChainDepth(v) == 0 && SameHead(ChainHead(v), OBJECT)
  }

  lemma {:induction false} TruncationOnChain(t: Ty, s: Ty)
    requires Truncates(t, s)
    ensures var cut := CutOnChain(t, s);
      && (cut.None? ==> ChainDepth(t) == ChainDepth(s) && SameHead(ChainHead(t), ChainHead(s)))
      && (cut.Some? ==>
            && ChainDepth(t) == ChainDepth(s) + ChainDepth(cut.value)
            && ChainHead(t) == ChainHead(cut.value) && ChainHead(s) == OBJECT)
    decreases t
  {
    if t.Array? {
      TruncationOnChain(t.elem, s.elem);
    } else if t.TypeVar? {
      if t.bounds != [] && s.bounds != [] {
        TruncationOnChain(t.bounds[0], s.bounds[0]);
      }
    } else if t.Intersection? {
      if t.members != [] {
        TruncationOnChain(t.members[0], s.members[0]);
      }
    } else {
      TruncationKeepsShape(t, s);
    }
  }

  /**
   A truncation keeps the erasure's shape exactly when it does not cut, on the leftmost
   chain, the bounds of a variable bounded by anything but `Object`.
   */
  lemma TruncationKeepsErasureIff(t: Ty, s: Ty)
    requires Truncates(t, s)
    ensures SameShape(Erasure(t), Erasure(s))
       <==> (CutOnChain(t, s).Some? ==> BoundedByObject(CutOnChain(t, s).value))
  {
    ErasuresAgreeIff(t, s);
    TruncationOnChain(t, s);
  }

  /** A bound truncated away on one side only: one variable, two erasures. */
  lemma TruncatedBoundErasesDifferently(scope: TypeVarScope, bound: Ty)
    requires bound.Reference? && bound.name != "java.lang.Object"
    ensures SameShape(TypeVar(scope, [bound], None), TypeVar(scope, [], None))
    ensures !SameShape(Erasure(TypeVar(scope, [bound], None)), Erasure(TypeVar(scope, [], None)))
  {}
}
