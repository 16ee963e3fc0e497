/**
 The declaration stubs of `crates/syntax/src/stub.rs`, generic in how a name is
 represented, with the structural map from one representation to another. The
 resolver of `crates/hir/src/stubs.rs` is this map at "look the index up".
 */
module Stubs {
  import opened Wrappers

  datatype PrimitiveType = Int | Long | Float | Double | Boolean | Byte | Char | Short

  datatype PrimitiveValue =
    | IntValue(i: int) | LongValue(i: int) | FloatBits(bits: nat) | DoubleBits(bits: nat)
    | BooleanValue(b: bool) | ByteValue(i: int) | CharValue(bits: nat) | ShortValue(i: int)

  datatype TypeRef<N> =
    | Primitive(prim: PrimitiveType)
    | Reference(name: N, genericArgs: seq<TypeRef<N>>)
    | Wildcard(bound: Option<TypeBound<N>>)
    | TypeVariable(variable: N)
    | Array(inner: TypeRef<N>)
    | Error
    | Nullable(inner: TypeRef<N>)
    | DefinitelyNonNull(inner: TypeRef<N>)
    | Void

  datatype TypeBound<N> = Upper(ty: TypeRef<N>) | Lower(ty: TypeRef<N>)

  datatype AnnotationSig<N> = AnnotationSig(
    annotationType: TypeRef<N>,
    arguments: seq<Argument<N>>)

  datatype Argument<N> = Argument(name: N, value: AnnotationValue<N>)

  datatype AnnotationValue<N> =
    | StringValue(text: N)
    | PrimitiveConstant(prim: PrimitiveValue)
    | ClassValue(ty: TypeRef<N>)
    | EnumValue(classType: TypeRef<N>, entryName: N)
    | Nested(annotation: AnnotationSig<N>)
    | Values(elements: seq<AnnotationValue<N>>)

  datatype TypeParameter<N> = TypeParameter(
    name: N, bounds: seq<TypeRef<N>>, annotations: seq<AnnotationSig<N>>)

  datatype Param<N> = Param(
    flags: bv16, name: Option<N>, paramType: TypeRef<N>, annotations: seq<AnnotationSig<N>>)

  datatype MethodStub<N> = MethodStub(
    flags: bv16, name: N, descriptor: N, returnType: TypeRef<N>, typeParams: seq<TypeParameter<N>>,
    throwsList: seq<TypeRef<N>>, params: seq<Param<N>>, annotations: seq<AnnotationSig<N>>,
    defaultValue: Option<AnnotationValue<N>>, deprecated: bool)

  datatype FieldStub<N> = FieldStub(
    name: N, descriptor: N, flags: bv16, fieldType: TypeRef<N>, annotations: seq<AnnotationSig<N>>,
    constantValue: Option<AnnotationValue<N>>, deprecated: bool)

  datatype RecordComponent<N> = RecordComponent(
    name: N, componentType: TypeRef<N>, varargs: bool, annotations: seq<AnnotationSig<N>>)

  datatype ClassStub<N> = ClassStub(
    fqn: N, name: N, flags: bv16, isRecord: bool, deprecated: bool, superClass: Option<TypeRef<N>>,
    interfaces: seq<TypeRef<N>>, typeParams: seq<TypeParameter<N>>, methods: seq<MethodStub<N>>,
    fields: seq<FieldStub<N>>, permittedSubclasses: seq<TypeRef<N>>,
    recordComponents: seq<RecordComponent<N>>, annotations: seq<AnnotationSig<N>>)

  datatype ModuleRequires<N> = ModuleRequires(moduleName: N, flags: bv16, compiledVersion: Option<N>)

  /** An `exports` or an `opens` directive: the two have the same parts. */
  datatype ModuleExports<N> = ModuleExports(packageName: N, flags: bv16, toModules: seq<N>)

  datatype ModuleProvides<N> = ModuleProvides(
    serviceInterface: TypeRef<N>, withImplementations: seq<TypeRef<N>>)

  datatype ModuleStub<N> = ModuleStub(
    name: N, flags: bv16, version: Option<N>, requirements: seq<ModuleRequires<N>>,
    exported: seq<ModuleExports<N>>, opens: seq<ModuleExports<N>>, uses: seq<TypeRef<N>>,
    provided: seq<ModuleProvides<N>>)

  datatype ClassOrModuleStub<N> = Class(class_: ClassStub<N>) | Module(module_: ModuleStub<N>) {
    function Fqn(): N {
      match this
      case Class(c) => c.fqn
      case Module(m) => m.name
    }
  }

  // ----- the structural map

  function MapOption<N, M>(o: Option<N>, f: N -> M): Option<M> {
    if o.Some? then Some(f(o.value)) else None
  }

  function MapNames<N, M>(ns: seq<N>, f: N -> M): seq<M> {
    seq(|ns|, i requires 0 <= i < |ns| => f(ns[i]))
  }

  function MapTypeRef<N, M>(t: TypeRef<N>, f: N -> M): TypeRef<M>
    decreases t
  {
    match t
    case Primitive(p) => Primitive(p)
    case Reference(name, args) =>
      Reference(f(name), seq(|args|, i requires 0 <= i < |args| => MapTypeRef(args[i], f)))
    case Wildcard(bound) =>
      Wildcard(if bound.Some? then Some(MapTypeBound(bound.value, f)) else None)
    case TypeVariable(v) => TypeVariable(f(v))
    case Array(inner) => Array(MapTypeRef(inner, f))
    case Error => Error
    case Nullable(inner) => Nullable(MapTypeRef(inner, f))
    case DefinitelyNonNull(inner) => DefinitelyNonNull(MapTypeRef(inner, f))
    case Void => Void
  }

  function MapTypeBound<N, M>(b: TypeBound<N>, f: N -> M): TypeBound<M>
    decreases b
  {
    match b
    case Upper(ty) => Upper(MapTypeRef(ty, f))
    case Lower(ty) => Lower(MapTypeRef(ty, f))
  }

  function MapTypeRefs<N, M>(ts: seq<TypeRef<N>>, f: N -> M): seq<TypeRef<M>> {
    seq(|ts|, i requires 0 <= i < |ts| => MapTypeRef(ts[i], f))
  }

  function MapTypeRefOption<N, M>(t: Option<TypeRef<N>>, f: N -> M): Option<TypeRef<M>> {
    if t.Some? then Some(MapTypeRef(t.value, f)) else None
  }

  function MapAnnotation<N, M>(a: AnnotationSig<N>, f: N -> M): AnnotationSig<M>
    decreases a
  {
    var args := a.arguments;
    AnnotationSig(
      MapTypeRef(a.annotationType, f),
      seq(|args|, i requires 0 <= i < |args| => Argument(f(args[i].name), MapAnnotationValue(args[i].value, f))))
  }

  function MapAnnotationValue<N, M>(v: AnnotationValue<N>, f: N -> M): AnnotationValue<M>
    decreases v
  {
    match v
    case StringValue(text) => StringValue(f(text))
    case PrimitiveConstant(p) => PrimitiveConstant(p)
    case ClassValue(ty) => ClassValue(MapTypeRef(ty, f))
    case EnumValue(ty, entry) => EnumValue(MapTypeRef(ty, f), f(entry))
    case Nested(annotation) => Nested(MapAnnotation(annotation, f))
    case Values(elements) =>
      Values(seq(|elements|, i requires 0 <= i < |elements| => MapAnnotationValue(elements[i], f)))
  }

  function MapArguments<N, M>(args: seq<Argument<N>>, f: N -> M): seq<Argument<M>> {
    seq(|args|, i requires 0 <= i < |args| => Argument(f(args[i].name), MapAnnotationValue(args[i].value, f)))
  }

  function MapAnnotationValues<N, M>(vs: seq<AnnotationValue<N>>, f: N -> M): seq<AnnotationValue<M>> {
    seq(|vs|, i requires 0 <= i < |vs| => MapAnnotationValue(vs[i], f))
  }

  function MapAnnotationValueOption<N, M>(v: Option<AnnotationValue<N>>, f: N -> M): Option<AnnotationValue<M>> {
    if v.Some? then Some(MapAnnotationValue(v.value, f)) else None
  }

  function MapAnnotations<N, M>(xs: seq<AnnotationSig<N>>, f: N -> M): seq<AnnotationSig<M>> {
    seq(|xs|, i requires 0 <= i < |xs| => MapAnnotation(xs[i], f))
  }

  function MapTypeParameter<N, M>(p: TypeParameter<N>, f: N -> M): TypeParameter<M> {
    TypeParameter(f(p.name), MapTypeRefs(p.bounds, f), MapAnnotations(p.annotations, f))
  }

  function MapTypeParameters<N, M>(xs: seq<TypeParameter<N>>, f: N -> M): seq<TypeParameter<M>> {
    seq(|xs|, i requires 0 <= i < |xs| => MapTypeParameter(xs[i], f))
  }

  function MapParam<N, M>(p: Param<N>, f: N -> M): Param<M> {
    Param(p.flags, MapOption(p.name, f), MapTypeRef(p.paramType, f), MapAnnotations(p.annotations, f))
  }

  function MapParams<N, M>(xs: seq<Param<N>>, f: N -> M): seq<Param<M>> {
    seq(|xs|, i requires 0 <= i < |xs| => MapParam(xs[i], f))
  }

  function MapMethod<N, M>(m: MethodStub<N>, f: N -> M): MethodStub<M> {
    MethodStub(
      m.flags, f(m.name), f(m.descriptor), MapTypeRef(m.returnType, f), MapTypeParameters(m.typeParams, f),
      MapTypeRefs(m.throwsList, f), MapParams(m.params, f), MapAnnotations(m.annotations, f),
      MapAnnotationValueOption(m.defaultValue, f), m.deprecated)
  }

  function MapMethods<N, M>(xs: seq<MethodStub<N>>, f: N -> M): seq<MethodStub<M>> {
    seq(|xs|, i requires 0 <= i < |xs| => MapMethod(xs[i], f))
  }

  function MapField<N, M>(d: FieldStub<N>, f: N -> M): FieldStub<M> {
    FieldStub(
      f(d.name), f(d.descriptor), d.flags, MapTypeRef(d.fieldType, f), MapAnnotations(d.annotations, f),
      MapAnnotationValueOption(d.constantValue, f), d.deprecated)
  }

  function MapFields<N, M>(xs: seq<FieldStub<N>>, f: N -> M): seq<FieldStub<M>> {
    seq(|xs|, i requires 0 <= i < |xs| => MapField(xs[i], f))
  }

  function MapRecordComponent<N, M>(r: RecordComponent<N>, f: N -> M): RecordComponent<M> {
    RecordComponent(f(r.name), MapTypeRef(r.componentType, f), r.varargs, MapAnnotations(r.annotations, f))
  }

  function MapRecordComponents<N, M>(xs: seq<RecordComponent<N>>, f: N -> M): seq<RecordComponent<M>> {
    seq(|xs|, i requires 0 <= i < |xs| => MapRecordComponent(xs[i], f))
  }

  function MapClass<N, M>(c: ClassStub<N>, f: N -> M): ClassStub<M> {
    ClassStub(
      f(c.fqn), f(c.name), c.flags, c.isRecord, c.deprecated, MapTypeRefOption(c.superClass, f),
      MapTypeRefs(c.interfaces, f), MapTypeParameters(c.typeParams, f), MapMethods(c.methods, f),
      MapFields(c.fields, f), MapTypeRefs(c.permittedSubclasses, f),
      MapRecordComponents(c.recordComponents, f), MapAnnotations(c.annotations, f))
  }

  function MapRequires<N, M>(xs: seq<ModuleRequires<N>>, f: N -> M): seq<ModuleRequires<M>> {
    seq(|xs|, i requires 0 <= i < |xs| =>
      ModuleRequires(f(xs[i].moduleName), xs[i].flags, MapOption(xs[i].compiledVersion, f)))
  }

  function MapExports<N, M>(xs: seq<ModuleExports<N>>, f: N -> M): seq<ModuleExports<M>> {
    seq(|xs|, i requires 0 <= i < |xs| =>
      ModuleExports(f(xs[i].packageName), xs[i].flags, MapNames(xs[i].toModules, f)))
  }

  function MapProvides<N, M>(xs: seq<ModuleProvides<N>>, f: N -> M): seq<ModuleProvides<M>> {
    seq(|xs|, i requires 0 <= i < |xs| =>
      ModuleProvides(MapTypeRef(xs[i].serviceInterface, f), MapTypeRefs(xs[i].withImplementations, f)))
  }

  function MapModule<N, M>(m: ModuleStub<N>, f: N -> M): ModuleStub<M> {
    ModuleStub(
      f(m.name), m.flags, MapOption(m.version, f), MapRequires(m.requirements, f), MapExports(m.exported, f),
      MapExports(m.opens, f), MapTypeRefs(m.uses, f), MapProvides(m.provided, f))
  }

  function MapStub<N, M>(s: ClassOrModuleStub<N>, f: N -> M): ClassOrModuleStub<M> {
    match s
    case Class(c) => Class(MapClass(c, f))
    case Module(m) => Module(MapModule(m, f))
  }
}
