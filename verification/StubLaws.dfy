/**
 The structural map over stubs, and so the resolver, loses nothing: mapping by a
 function that changes no name changes nothing, and two maps are one.
 */
module StubLaws {
  import opened Wrappers
  import opened Stubs
  import opened NameIndexes
  import opened Loader

  ghost predicate Keeps<N(!new)>(f: N -> N) {
    forall x :: f(x) == x
  }

  ghost predicate Composes<N(!new), M, P>(f: N -> M, g: M -> P, h: N -> P) {
    forall x :: h(x) == g(f(x))
  }

  lemma OptionIsKept<N(!new)>(o: Option<N>, f: N -> N)
    requires Keeps(f)
    ensures MapOption(o, f) == o
  {}

  lemma OptionComposes<N(!new), M, P>(o: Option<N>, f: N -> M, g: M -> P, h: N -> P)
    requires Composes(f, g, h)
    ensures MapOption(MapOption(o, f), g) == MapOption(o, h)
  {}

  lemma NamesAreKept<N(!new)>(ns: seq<N>, f: N -> N)
    requires Keeps(f)
    ensures MapNames(ns, f) == ns
  {}

  lemma NamesCompose<N(!new), M, P>(ns: seq<N>, f: N -> M, g: M -> P, h: N -> P)
    requires Composes(f, g, h)
    ensures MapNames(MapNames(ns, f), g) == MapNames(ns, h)
  {}

  // ----- types

  lemma {:induction false} TypeRefIsKept<N(!new)>(t: TypeRef<N>, f: N -> N)
    requires Keeps(f)
    ensures MapTypeRef(t, f) == t
    decreases t
  {
    match t
    case Reference(name, args) =>
      forall i | 0 <= i < |args| ensures MapTypeRef(args[i], f) == args[i] {
        TypeRefIsKept(args[i], f);
      }
      assert MapTypeRef(t, f).genericArgs == args;
    case Wildcard(bound) => if bound.Some? { TypeBoundIsKept(bound.value, f); }
    case Array(inner) => TypeRefIsKept(inner, f);
    case Nullable(inner) => TypeRefIsKept(inner, f);
    case DefinitelyNonNull(inner) => TypeRefIsKept(inner, f);
    case _ =>
  }

  lemma {:induction false} TypeBoundIsKept<N(!new)>(b: TypeBound<N>, f: N -> N)
    requires Keeps(f)
    ensures MapTypeBound(b, f) == b
    decreases b
  {
    TypeRefIsKept(b.ty, f);
  }

  lemma {:induction false} TypeRefComposes<N(!new), M, P>(t: TypeRef<N>, f: N -> M, g: M -> P, h: N -> P)
    requires Composes(f, g, h)
    ensures MapTypeRef(MapTypeRef(t, f), g) == MapTypeRef(t, h)
    decreases t
  {
    match t
    case Reference(name, args) =>
      forall i | 0 <= i < |args| ensures MapTypeRef(MapTypeRef(args[i], f), g) == MapTypeRef(args[i], h) {
        TypeRefComposes(args[i], f, g, h);
      }
      assert MapTypeRef(MapTypeRef(t, f), g).genericArgs == MapTypeRef(t, h).genericArgs;
    case Wildcard(bound) => if bound.Some? { TypeBoundComposes(bound.value, f, g, h); }
    case Array(inner) => TypeRefComposes(inner, f, g, h);
    case Nullable(inner) => TypeRefComposes(inner, f, g, h);
    case DefinitelyNonNull(inner) => TypeRefComposes(inner, f, g, h);
    case _ =>
  }

  lemma {:induction false} TypeBoundComposes<N(!new), M, P>(b: TypeBound<N>, f: N -> M, g: M -> P, h: N -> P)
    requires Composes(f, g, h)
    ensures MapTypeBound(MapTypeBound(b, f), g) == MapTypeBound(b, h)
    decreases b
  {
    TypeRefComposes(b.ty, f, g, h);
  }

  lemma TypeRefsAreKept<N(!new)>(xs: seq<TypeRef<N>>, f: N -> N)
    requires Keeps(f)
    ensures MapTypeRefs(xs, f) == xs
  {
    forall i | 0 <= i < |xs| ensures MapTypeRef(xs[i], f) == xs[i] {
      TypeRefIsKept(xs[i], f);
    }
  }

  lemma TypeRefsCompose<N(!new), M, P>(xs: seq<TypeRef<N>>, f: N -> M, g: M -> P, h: N -> P)
    requires Composes(f, g, h)
    ensures MapTypeRefs(MapTypeRefs(xs, f), g) == MapTypeRefs(xs, h)
  {
    forall i | 0 <= i < |xs| ensures MapTypeRef(MapTypeRef(xs[i], f), g) == MapTypeRef(xs[i], h) {
      TypeRefComposes(xs[i], f, g, h);
    }
  }

  lemma TypeRefOptionIsKept<N(!new)>(t: Option<TypeRef<N>>, f: N -> N)
    requires Keeps(f)
    ensures MapTypeRefOption(t, f) == t
  {
    if t.Some? {
      TypeRefIsKept(t.value, f);
    }
  }

  lemma TypeRefOptionComposes<N(!new), M, P>(t: Option<TypeRef<N>>, f: N -> M, g: M -> P, h: N -> P)
    requires Composes(f, g, h)
    ensures MapTypeRefOption(MapTypeRefOption(t, f), g) == MapTypeRefOption(t, h)
  {
    if t.Some? {
      TypeRefComposes(t.value, f, g, h);
    }
  }

  // ----- annotations

  lemma {:induction false} AnnotationIsKept<N(!new)>(a: AnnotationSig<N>, f: N -> N)
    requires Keeps(f)
    ensures MapAnnotation(a, f) == a
    decreases a
  {
    TypeRefIsKept(a.annotationType, f);
    var args := a.arguments;
    forall i | 0 <= i < |args| ensures Argument(f(args[i].name), MapAnnotationValue(args[i].value, f)) == args[i] {
      AnnotationValueIsKept(args[i].value, f);
    }
    assert MapAnnotation(a, f).arguments == args;
  }

  lemma {:induction false} AnnotationValueIsKept<N(!new)>(v: AnnotationValue<N>, f: N -> N)
    requires Keeps(f)
    ensures MapAnnotationValue(v, f) == v
    decreases v
  {
    match v
    case ClassValue(ty) => TypeRefIsKept(ty, f);
    case EnumValue(ty, _) => TypeRefIsKept(ty, f);
    case Nested(annotation) => AnnotationIsKept(annotation, f);
    case Values(elements) =>
      forall i | 0 <= i < |elements| ensures MapAnnotationValue(elements[i], f) == elements[i] {
        AnnotationValueIsKept(elements[i], f);
      }
      assert MapAnnotationValue(v, f).elements == elements;
    case _ =>
  }

  lemma {:induction false} AnnotationComposes<N(!new), M, P>(a: AnnotationSig<N>, f: N -> M, g: M -> P, h: N -> P)
    requires Composes(f, g, h)
    ensures MapAnnotation(MapAnnotation(a, f), g) == MapAnnotation(a, h)
    decreases a
  {
    TypeRefComposes(a.annotationType, f, g, h);
    var args := a.arguments;
    forall i | 0 <= i < |args|
      ensures MapAnnotationValue(MapAnnotationValue(args[i].value, f), g) == MapAnnotationValue(args[i].value, h)
    {
      AnnotationValueComposes(args[i].value, f, g, h);
    }
    assert MapAnnotation(MapAnnotation(a, f), g).arguments == MapAnnotation(a, h).arguments;
  }

  lemma {:induction false} AnnotationValueComposes<N(!new), M, P>(v: AnnotationValue<N>, f: N -> M, g: M -> P, h: N -> P)
    requires Composes(f, g, h)
    ensures MapAnnotationValue(MapAnnotationValue(v, f), g) == MapAnnotationValue(v, h)
    decreases v
  {
    match v
    case ClassValue(ty) => TypeRefComposes(ty, f, g, h);
    case EnumValue(ty, _) => TypeRefComposes(ty, f, g, h);
    case Nested(annotation) => AnnotationComposes(annotation, f, g, h);
    case Values(elements) =>
      forall i | 0 <= i < |elements|
        ensures MapAnnotationValue(MapAnnotationValue(elements[i], f), g) == MapAnnotationValue(elements[i], h)
      {
        AnnotationValueComposes(elements[i], f, g, h);
      }
      assert MapAnnotationValue(MapAnnotationValue(v, f), g).elements == MapAnnotationValue(v, h).elements;
    case _ =>
  }

  lemma AnnotationValueOptionIsKept<N(!new)>(v: Option<AnnotationValue<N>>, f: N -> N)
    requires Keeps(f)
    ensures MapAnnotationValueOption(v, f) == v
  {
    if v.Some? {
      AnnotationValueIsKept(v.value, f);
    }
  }

  lemma AnnotationValueOptionComposes<N(!new), M, P>(v: Option<AnnotationValue<N>>, f: N -> M, g: M -> P, h: N -> P)
    requires Composes(f, g, h)
    ensures MapAnnotationValueOption(MapAnnotationValueOption(v, f), g) == MapAnnotationValueOption(v, h)
  {
    if v.Some? {
      AnnotationValueComposes(v.value, f, g, h);
    }
  }

  lemma AnnotationsAreKept<N(!new)>(xs: seq<AnnotationSig<N>>, f: N -> N)
    requires Keeps(f)
    ensures MapAnnotations(xs, f) == xs
  {
    forall i | 0 <= i < |xs| ensures MapAnnotation(xs[i], f) == xs[i] {
      AnnotationIsKept(xs[i], f);
    }
  }

  lemma AnnotationsCompose<N(!new), M, P>(xs: seq<AnnotationSig<N>>, f: N -> M, g: M -> P, h: N -> P)
    requires Composes(f, g, h)
    ensures MapAnnotations(MapAnnotations(xs, f), g) == MapAnnotations(xs, h)
  {
    forall i | 0 <= i < |xs| ensures MapAnnotation(MapAnnotation(xs[i], f), g) == MapAnnotation(xs[i], h) {
      AnnotationComposes(xs[i], f, g, h);
    }
  }

  // ----- members

  lemma TypeParameterIsKept<N(!new)>(x: TypeParameter<N>, f: N -> N)
    requires Keeps(f)
    ensures MapTypeParameter(x, f) == x
  {
    TypeRefsAreKept(x.bounds, f);
    AnnotationsAreKept(x.annotations, f);
  }

  lemma TypeParameterComposes<N(!new), M, P>(x: TypeParameter<N>, f: N -> M, g: M -> P, h: N -> P)
    requires Composes(f, g, h)
    ensures MapTypeParameter(MapTypeParameter(x, f), g) == MapTypeParameter(x, h)
  {
    TypeRefsCompose(x.bounds, f, g, h);
    AnnotationsCompose(x.annotations, f, g, h);
  }

  lemma TypeParametersAreKept<N(!new)>(xs: seq<TypeParameter<N>>, f: N -> N)
    requires Keeps(f)
    ensures MapTypeParameters(xs, f) == xs
  {
    forall i | 0 <= i < |xs| ensures MapTypeParameter(xs[i], f) == xs[i] {
      TypeParameterIsKept(xs[i], f);
    }
  }

  lemma TypeParametersCompose<N(!new), M, P>(xs: seq<TypeParameter<N>>, f: N -> M, g: M -> P, h: N -> P)
    requires Composes(f, g, h)
    ensures MapTypeParameters(MapTypeParameters(xs, f), g) == MapTypeParameters(xs, h)
  {
    forall i | 0 <= i < |xs| ensures MapTypeParameter(MapTypeParameter(xs[i], f), g) == MapTypeParameter(xs[i], h) {
      TypeParameterComposes(xs[i], f, g, h);
    }
  }

  lemma ParamIsKept<N(!new)>(x: Param<N>, f: N -> N)
    requires Keeps(f)
    ensures MapParam(x, f) == x
  {
    TypeRefIsKept(x.paramType, f);
    AnnotationsAreKept(x.annotations, f);
  }

  lemma ParamComposes<N(!new), M, P>(x: Param<N>, f: N -> M, g: M -> P, h: N -> P)
    requires Composes(f, g, h)
    ensures MapParam(MapParam(x, f), g) == MapParam(x, h)
  {
    TypeRefComposes(x.paramType, f, g, h);
    AnnotationsCompose(x.annotations, f, g, h);
  }

  lemma ParamsAreKept<N(!new)>(xs: seq<Param<N>>, f: N -> N)
    requires Keeps(f)
    ensures MapParams(xs, f) == xs
  {
    forall i | 0 <= i < |xs| ensures MapParam(xs[i], f) == xs[i] {
      ParamIsKept(xs[i], f);
    }
  }

  lemma ParamsCompose<N(!new), M, P>(xs: seq<Param<N>>, f: N -> M, g: M -> P, h: N -> P)
    requires Composes(f, g, h)
    ensures MapParams(MapParams(xs, f), g) == MapParams(xs, h)
  {
    forall i | 0 <= i < |xs| ensures MapParam(MapParam(xs[i], f), g) == MapParam(xs[i], h) {
      ParamComposes(xs[i], f, g, h);
    }
  }

  lemma MethodIsKept<N(!new)>(x: MethodStub<N>, f: N -> N)
    requires Keeps(f)
    ensures MapMethod(x, f) == x
  {
    TypeRefIsKept(x.returnType, f);
    TypeParametersAreKept(x.typeParams, f);
    TypeRefsAreKept(x.throwsList, f);
    ParamsAreKept(x.params, f);
    AnnotationsAreKept(x.annotations, f);
    AnnotationValueOptionIsKept(x.defaultValue, f);
  }

  lemma MethodComposes<N(!new), M, P>(x: MethodStub<N>, f: N -> M, g: M -> P, h: N -> P)
    requires Composes(f, g, h)
    ensures MapMethod(MapMethod(x, f), g) == MapMethod(x, h)
  {
    TypeRefComposes(x.returnType, f, g, h);
    TypeParametersCompose(x.typeParams, f, g, h);
    TypeRefsCompose(x.throwsList, f, g, h);
    ParamsCompose(x.params, f, g, h);
    AnnotationsCompose(x.annotations, f, g, h);
    AnnotationValueOptionComposes(x.defaultValue, f, g, h);
  }

  lemma MethodsAreKept<N(!new)>(xs: seq<MethodStub<N>>, f: N -> N)
    requires Keeps(f)
    ensures MapMethods(xs, f) == xs
  {
    forall i | 0 <= i < |xs| ensures MapMethod(xs[i], f) == xs[i] {
      MethodIsKept(xs[i], f);
    }
  }

  lemma MethodsCompose<N(!new), M, P>(xs: seq<MethodStub<N>>, f: N -> M, g: M -> P, h: N -> P)
    requires Composes(f, g, h)
    ensures MapMethods(MapMethods(xs, f), g) == MapMethods(xs, h)
  {
    forall i | 0 <= i < |xs| ensures MapMethod(MapMethod(xs[i], f), g) == MapMethod(xs[i], h) {
      MethodComposes(xs[i], f, g, h);
    }
  }

  lemma FieldIsKept<N(!new)>(x: FieldStub<N>, f: N -> N)
    requires Keeps(f)
    ensures MapField(x, f) == x
  {
    TypeRefIsKept(x.fieldType, f);
    AnnotationsAreKept(x.annotations, f);
    AnnotationValueOptionIsKept(x.constantValue, f);
  }

  lemma FieldComposes<N(!new), M, P>(x: FieldStub<N>, f: N -> M, g: M -> P, h: N -> P)
    requires Composes(f, g, h)
    ensures MapField(MapField(x, f), g) == MapField(x, h)
  {
    TypeRefComposes(x.fieldType, f, g, h);
    AnnotationsCompose(x.annotations, f, g, h);
    AnnotationValueOptionComposes(x.constantValue, f, g, h);
  }

  lemma FieldsAreKept<N(!new)>(xs: seq<FieldStub<N>>, f: N -> N)
    requires Keeps(f)
    ensures MapFields(xs, f) == xs
  {
    forall i | 0 <= i < |xs| ensures MapField(xs[i], f) == xs[i] {
      FieldIsKept(xs[i], f);
    }
  }

  lemma FieldsCompose<N(!new), M, P>(xs: seq<FieldStub<N>>, f: N -> M, g: M -> P, h: N -> P)
    requires Composes(f, g, h)
    ensures MapFields(MapFields(xs, f), g) == MapFields(xs, h)
  {
    forall i | 0 <= i < |xs| ensures MapField(MapField(xs[i], f), g) == MapField(xs[i], h) {
      FieldComposes(xs[i], f, g, h);
    }
  }

  lemma RecordComponentIsKept<N(!new)>(x: RecordComponent<N>, f: N -> N)
    requires Keeps(f)
    ensures MapRecordComponent(x, f) == x
  {
    TypeRefIsKept(x.componentType, f);
    AnnotationsAreKept(x.annotations, f);
  }

  lemma RecordComponentComposes<N(!new), M, P>(x: RecordComponent<N>, f: N -> M, g: M -> P, h: N -> P)
    requires Composes(f, g, h)
    ensures MapRecordComponent(MapRecordComponent(x, f), g) == MapRecordComponent(x, h)
  {
    TypeRefComposes(x.componentType, f, g, h);
    AnnotationsCompose(x.annotations, f, g, h);
  }

  lemma RecordComponentsAreKept<N(!new)>(xs: seq<RecordComponent<N>>, f: N -> N)
    requires Keeps(f)
    ensures MapRecordComponents(xs, f) == xs
  {
    forall i | 0 <= i < |xs| ensures MapRecordComponent(xs[i], f) == xs[i] {
      RecordComponentIsKept(xs[i], f);
    }
  }

  lemma RecordComponentsCompose<N(!new), M, P>(xs: seq<RecordComponent<N>>, f: N -> M, g: M -> P, h: N -> P)
    requires Composes(f, g, h)
    ensures MapRecordComponents(MapRecordComponents(xs, f), g) == MapRecordComponents(xs, h)
  {
    forall i | 0 <= i < |xs| ensures MapRecordComponent(MapRecordComponent(xs[i], f), g) == MapRecordComponent(xs[i], h) {
      RecordComponentComposes(xs[i], f, g, h);
    }
  }

  lemma ClassIsKept<N(!new)>(x: ClassStub<N>, f: N -> N)
    requires Keeps(f)
    ensures MapClass(x, f) == x
  {
    TypeRefOptionIsKept(x.superClass, f);
    TypeRefsAreKept(x.interfaces, f);
    TypeParametersAreKept(x.typeParams, f);
    MethodsAreKept(x.methods, f);
    FieldsAreKept(x.fields, f);
    TypeRefsAreKept(x.permittedSubclasses, f);
    RecordComponentsAreKept(x.recordComponents, f);
    AnnotationsAreKept(x.annotations, f);
  }

  lemma ClassComposes<N(!new), M, P>(x: ClassStub<N>, f: N -> M, g: M -> P, h: N -> P)
    requires Composes(f, g, h)
    ensures MapClass(MapClass(x, f), g) == MapClass(x, h)
  {
    TypeRefOptionComposes(x.superClass, f, g, h);
    TypeRefsCompose(x.interfaces, f, g, h);
    TypeParametersCompose(x.typeParams, f, g, h);
    MethodsCompose(x.methods, f, g, h);
    FieldsCompose(x.fields, f, g, h);
    TypeRefsCompose(x.permittedSubclasses, f, g, h);
    RecordComponentsCompose(x.recordComponents, f, g, h);
    AnnotationsCompose(x.annotations, f, g, h);
  }

  // ----- modules

  lemma RequiresAreKept<N(!new)>(xs: seq<ModuleRequires<N>>, f: N -> N)
    requires Keeps(f)
    ensures MapRequires(xs, f) == xs
  {
    forall i | 0 <= i < |xs| ensures MapRequires(xs, f)[i] == xs[i] {
      OptionIsKept(xs[i].compiledVersion, f);
    }
  }

  lemma RequiresCompose<N(!new), M, P>(xs: seq<ModuleRequires<N>>, f: N -> M, g: M -> P, h: N -> P)
    requires Composes(f, g, h)
    ensures MapRequires(MapRequires(xs, f), g) == MapRequires(xs, h)
  {
    forall i | 0 <= i < |xs| ensures MapRequires(MapRequires(xs, f), g)[i] == MapRequires(xs, h)[i] {
      OptionComposes(xs[i].compiledVersion, f, g, h);
    }
  }

  lemma ExportsAreKept<N(!new)>(xs: seq<ModuleExports<N>>, f: N -> N)
    requires Keeps(f)
    ensures MapExports(xs, f) == xs
  {
    forall i | 0 <= i < |xs| ensures MapExports(xs, f)[i] == xs[i] {
      NamesAreKept(xs[i].toModules, f);
    }
  }

  lemma ExportsCompose<N(!new), M, P>(xs: seq<ModuleExports<N>>, f: N -> M, g: M -> P, h: N -> P)
    requires Composes(f, g, h)
    ensures MapExports(MapExports(xs, f), g) == MapExports(xs, h)
  {
    forall i | 0 <= i < |xs| ensures MapExports(MapExports(xs, f), g)[i] == MapExports(xs, h)[i] {
      NamesCompose(xs[i].toModules, f, g, h);
    }
  }

  lemma ProvidesAreKept<N(!new)>(xs: seq<ModuleProvides<N>>, f: N -> N)
    requires Keeps(f)
    ensures MapProvides(xs, f) == xs
  {
    forall i | 0 <= i < |xs| ensures MapProvides(xs, f)[i] == xs[i] {
      TypeRefIsKept(xs[i].serviceInterface, f);
      TypeRefsAreKept(xs[i].withImplementations, f);
    }
  }

  lemma ProvidesCompose<N(!new), M, P>(xs: seq<ModuleProvides<N>>, f: N -> M, g: M -> P, h: N -> P)
    requires Composes(f, g, h)
    ensures MapProvides(MapProvides(xs, f), g) == MapProvides(xs, h)
  {
    forall i | 0 <= i < |xs| ensures MapProvides(MapProvides(xs, f), g)[i] == MapProvides(xs, h)[i] {
      TypeRefComposes(xs[i].serviceInterface, f, g, h);
      TypeRefsCompose(xs[i].withImplementations, f, g, h);
    }
  }

  lemma ModuleIsKept<N(!new)>(x: ModuleStub<N>, f: N -> N)
    requires Keeps(f)
    ensures MapModule(x, f) == x
  {
    OptionIsKept(x.version, f);
    RequiresAreKept(x.requirements, f);
    ExportsAreKept(x.exported, f);
    ExportsAreKept(x.opens, f);
    TypeRefsAreKept(x.uses, f);
    ProvidesAreKept(x.provided, f);
  }

  lemma ModuleComposes<N(!new), M, P>(x: ModuleStub<N>, f: N -> M, g: M -> P, h: N -> P)
    requires Composes(f, g, h)
    ensures MapModule(MapModule(x, f), g) == MapModule(x, h)
  {
    RequiresCompose(x.requirements, f, g, h);
    ExportsCompose(x.exported, f, g, h);
    ExportsCompose(x.opens, f, g, h);
    TypeRefsCompose(x.uses, f, g, h);
    ProvidesCompose(x.provided, f, g, h);
  }

  // ----- whole stubs and index entries

  lemma StubIsKept<N(!new)>(s: ClassOrModuleStub<N>, f: N -> N)
    requires Keeps(f)
    ensures MapStub(s, f) == s
  {
    match s
    case Class(c) => ClassIsKept(c, f);
    case Module(m) => ModuleIsKept(m, f);
  }

  lemma StubComposes<N(!new), M, P>(s: ClassOrModuleStub<N>, f: N -> M, g: M -> P, h: N -> P)
    requires Composes(f, g, h)
    ensures MapStub(MapStub(s, f), g) == MapStub(s, h)
  {
    match s
    case Class(c) => ClassComposes(c, f, g, h);
    case Module(m) => ModuleComposes(m, f, g, h);
  }

  lemma EntryIsKept<N(!new)>(e: ClassEntry<N>, f: N -> N)
    requires Keeps(f)
    ensures MapEntry(e, f) == e
  {
    NamesAreKept(e.interfaces, f);
  }

  lemma EntryComposes<N(!new), M, P>(e: ClassEntry<N>, f: N -> M, g: M -> P, h: N -> P)
    requires Composes(f, g, h)
    ensures MapEntry(MapEntry(e, f), g) == MapEntry(e, h)
  {
    NamesCompose(e.interfaces, f, g, h);
  }

  lemma ModuleEntryIsKept<N(!new)>(e: ModuleEntry<N>, f: N -> N)
    requires Keeps(f)
    ensures MapModuleEntry(e, f) == e
  {}

  lemma ModuleEntryComposes<N(!new), M, P>(e: ModuleEntry<N>, f: N -> M, g: M -> P, h: N -> P)
    requires Composes(f, g, h)
    ensures MapModuleEntry(MapModuleEntry(e, f), g) == MapModuleEntry(e, h)
  {}
}
