/**
 The type model of `crates/hir-ty/src/ty.rs`: a type is a finite tree. The
 source interns its types, so two handles are equal exactly when the trees are;
 structural equality of this datatype plays that part here.
 */
module Types {
  import opened Wrappers

  datatype PrimitiveType = Int | Long | Float | Double | Boolean | Byte | Char | Short

  datatype BoundKind = Upper | Lower

  datatype SourceClass = SourceClass(file: nat, item: nat)

  /** The declaring parameter that identifies a type variable. */
  datatype TypeVarScope =
    | ClassScope(file: nat, item: nat, name: string)
    | MethodScope(file: nat, item: nat, name: string)
    | LibraryClass(owner: string, name: string)
    | LibraryMethod(owner: string, member: string, name: string)
    | Capture(id: nat, name: string)
    | Unnamed(name: string)

  datatype WildcardBound = WildcardBound(kind: BoundKind, ty: Ty)

  datatype Ty =
    | Void
    | Null
    | Primitive(prim: PrimitiveType)
    | Reference(name: string, args: seq<Ty>, local: Option<SourceClass>)
    | TypeVar(scope: TypeVarScope, bounds: seq<Ty>, lowerBound: Option<Ty>)
    | Array(elem: Ty)
    | Wildcard(bound: Option<WildcardBound>)
    | Intersection(members: seq<Ty>)
    | InferenceVar(id: nat)
    | Error
    | Nullable(inner: Ty)
    | DefinitelyNonNull(inner: Ty)
    | Flexible(lower: Ty, upper: Ty)

  const OBJECT := Reference("java.lang.Object", [], None)

  predicate IsObject(t: Ty) {
    t.Reference? && t.name == "java.lang.Object" && t.args == []
  }

  // ----- the normalising constructors

  /** `T??` is `T?`. */
  function MakeNullable(inner: Ty): Ty {
    if inner.Nullable? then inner else Nullable(inner)
  }

  function MakeDefinitelyNonNull(inner: Ty): Ty {
    if inner.DefinitelyNonNull? then inner else DefinitelyNonNull(inner)
  }

  /** `L..L` is `L`. */
  function MakeFlexible(lower: Ty, upper: Ty): Ty {
    if lower == upper then lower else Flexible(lower, upper)
  }

  /** `? extends Object` is `?`. */
  function MakeWildcard(bound: Option<WildcardBound>): Ty {
    if bound.Some? && bound.value.kind == Upper && IsObject(bound.value.ty)
    then Wildcard(None)
    else Wildcard(bound)
  }

  function MakeIntersection(members: seq<Ty>): Ty {
    if |members| == 0 then Error
    else if |members| == 1 then members[0]
    else Intersection(members)
  }

  // ----- the structure a rewrite descends into

  /** The rewritable children in source order; a variable has none, whatever its bounds. */
  function Children(t: Ty): (kids: seq<Ty>)
    ensures forall i | 0 <= i < |kids| :: kids[i] < t
  {
    match t
    case Reference(_, args, _) => args
    case Array(elem) => [elem]
    case Nullable(inner) => [inner]
    case DefinitelyNonNull(inner) => [inner]
    case Wildcard(bound) => if bound.Some? then [bound.value.ty] else []
    case Intersection(members) => members
    case Flexible(lower, upper) => [lower, upper]
    case _ => []
  }

  /** `t` rebuilt over rewritten children, through the normalising constructors. */
  function Rebuild(t: Ty, kids: seq<Ty>): Ty
    requires |kids| == |Children(t)|
  {
    match t
    case Reference(name, _, local) => Reference(name, kids, local)
    case Array(_) => Array(kids[0])
    case Nullable(_) => MakeNullable(kids[0])
    case DefinitelyNonNull(_) => MakeDefinitelyNonNull(kids[0])
    case Wildcard(bound) =>
      MakeWildcard(if bound.Some? then Some(WildcardBound(bound.value.kind, kids[0])) else None)
    case Intersection(_) => MakeIntersection(kids)
    case Flexible(_, _) => MakeFlexible(kids[0], kids[1])
    case _ => t
  }

  // ----- size, the measure of every traversal

  function Sum(ns: seq<nat>): nat {
    if ns == [] then 0 else ns[0] + Sum(ns[1..])
  }

  function Size(t: Ty): nat
    decreases t
  {
    var kids := Children(t);
    1 + Sum(seq(|kids|, i requires 0 <= i < |kids| => Size(kids[i])))
  }

  function Sizes(ts: seq<Ty>): seq<nat> {
    seq(|ts|, i requires 0 <= i < |ts| => Size(ts[i]))
  }

  function SizeAll(ts: seq<Ty>): nat {
    Sum(Sizes(ts))
  }

  lemma SizeUnfolds(t: Ty)
    ensures Size(t) == 1 + SizeAll(Children(t))
  {
    var kids := Children(t);
    assert seq(|kids|, i requires 0 <= i < |kids| => Size(kids[i])) == Sizes(kids);
  }

  lemma SizeAllStep(ts: seq<Ty>)
    requires ts != []
    ensures SizeAll(ts) == Size(ts[0]) + SizeAll(ts[1..])
  {
    assert Sizes(ts)[1..] == Sizes(ts[1..]);
  }

  lemma {:induction false} SizeAllBounds(ts: seq<Ty>, i: nat)
    requires i < |ts|
    ensures 0 < Size(ts[i]) <= SizeAll(ts)
  {
    SizeAllStep(ts);
    if i > 0 {
      SizeAllBounds(ts[1..], i - 1);
    }
  }

  lemma ChildIsSmaller(t: Ty, i: nat)
    requires i < |Children(t)|
    ensures Size(Children(t)[i]) < Size(t)
  {
    SizeUnfolds(t);
    SizeAllBounds(Children(t), i);
  }
}
