/**
 The string-table encoder of `crates/hir/src/stubs.rs`. Every method states the
 same thing of what it encodes: decoded against any later state of the table,
 it is the input with each name replaced by its spelling's new symbol.
 */
module StringTable {
  import opened Wrappers
  import opened Stubs

  type Symbol = nat

  /** Indices are 32-bit: the cast of the table length wraps. */
  const TABLE_LIMIT: nat := 0x1_0000_0000

  /** A later reader: the table it was handed and the interner of its session. */
  datatype Reader = Reader(table: seq<string>, intern: string -> Symbol)

  /** The reader's table extends the one at hand, and its indices fit. */
  ghost predicate Extends(strings: seq<string>, v: Reader) {
    strings <= v.table && |v.table| <= TABLE_LIMIT
  }

  /** The resolver's lookup; `None` is the out-of-bounds panic. */
  function Look(v: Reader): nat -> Option<Symbol> {
    (i: nat) => if i < |v.table| then Some(v.intern(v.table[i])) else None
  }

  /** A symbol of the encoding session as the reader's session spells it. */
  function Respell(resolve: Symbol -> string, v: Reader): Symbol -> Option<Symbol> {
    (s: Symbol) => Some(v.intern(resolve(s)))
  }

  lemma ExtendsEarlier(before: seq<string>, after: seq<string>)
    requires before <= after
    ensures forall v: Reader :: Extends(after, v) ==> Extends(before, v)
  {
    forall v: Reader | Extends(after, v) ensures Extends(before, v) {
      assert before == after[..|before|] == v.table[..|after|][..|before|];
    }
  }

  ghost predicate EncodesName(strings: seq<string>, resolve: Symbol -> string, r: nat, s: Symbol) {
    forall v: Reader :: Extends(strings, v) ==> Look(v)(r) == Respell(resolve, v)(s)
  }

  ghost predicate EncodesNames(strings: seq<string>, resolve: Symbol -> string, r: seq<nat>, t: seq<Symbol>) {
    forall v: Reader :: Extends(strings, v) ==> MapNames(r, Look(v)) == MapNames(t, Respell(resolve, v))
  }

  ghost predicate EncodesNameOption(strings: seq<string>, resolve: Symbol -> string, r: Option<nat>, t: Option<Symbol>) {
    forall v: Reader :: Extends(strings, v) ==> MapOption(r, Look(v)) == MapOption(t, Respell(resolve, v))
  }

  ghost predicate EncodesTypeRef(strings: seq<string>, resolve: Symbol -> string, r: TypeRef<nat>, t: TypeRef<Symbol>) {
    forall v: Reader :: Extends(strings, v) ==> MapTypeRef(r, Look(v)) == MapTypeRef(t, Respell(resolve, v))
  }

  ghost predicate EncodesTypeRefs(strings: seq<string>, resolve: Symbol -> string, r: seq<TypeRef<nat>>, t: seq<TypeRef<Symbol>>) {
    forall v: Reader :: Extends(strings, v) ==> MapTypeRefs(r, Look(v)) == MapTypeRefs(t, Respell(resolve, v))
  }

  ghost predicate EncodesTypeRefOption(strings: seq<string>, resolve: Symbol -> string, r: Option<TypeRef<nat>>, t: Option<TypeRef<Symbol>>) {
    forall v: Reader :: Extends(strings, v) ==> MapTypeRefOption(r, Look(v)) == MapTypeRefOption(t, Respell(resolve, v))
  }

  ghost predicate EncodesTypeBound(strings: seq<string>, resolve: Symbol -> string, r: TypeBound<nat>, t: TypeBound<Symbol>) {
    forall v: Reader :: Extends(strings, v) ==> MapTypeBound(r, Look(v)) == MapTypeBound(t, Respell(resolve, v))
  }

  ghost predicate EncodesAnnotation(strings: seq<string>, resolve: Symbol -> string, r: AnnotationSig<nat>, t: AnnotationSig<Symbol>) {
    forall v: Reader :: Extends(strings, v) ==> MapAnnotation(r, Look(v)) == MapAnnotation(t, Respell(resolve, v))
  }

  ghost predicate EncodesAnnotations(strings: seq<string>, resolve: Symbol -> string, r: seq<AnnotationSig<nat>>, t: seq<AnnotationSig<Symbol>>) {
    forall v: Reader :: Extends(strings, v) ==> MapAnnotations(r, Look(v)) == MapAnnotations(t, Respell(resolve, v))
  }

  ghost predicate EncodesArguments(strings: seq<string>, resolve: Symbol -> string, r: seq<Argument<nat>>, t: seq<Argument<Symbol>>) {
    forall v: Reader :: Extends(strings, v) ==> MapArguments(r, Look(v)) == MapArguments(t, Respell(resolve, v))
  }

  ghost predicate EncodesAnnotationValue(strings: seq<string>, resolve: Symbol -> string, r: AnnotationValue<nat>, t: AnnotationValue<Symbol>) {
    forall v: Reader :: Extends(strings, v) ==> MapAnnotationValue(r, Look(v)) == MapAnnotationValue(t, Respell(resolve, v))
  }

  ghost predicate EncodesAnnotationValues(strings: seq<string>, resolve: Symbol -> string, r: seq<AnnotationValue<nat>>, t: seq<AnnotationValue<Symbol>>) {
    forall v: Reader :: Extends(strings, v) ==> MapAnnotationValues(r, Look(v)) == MapAnnotationValues(t, Respell(resolve, v))
  }

  ghost predicate EncodesAnnotationValueOption(strings: seq<string>, resolve: Symbol -> string, r: Option<AnnotationValue<nat>>, t: Option<AnnotationValue<Symbol>>) {
    forall v: Reader :: Extends(strings, v) ==> MapAnnotationValueOption(r, Look(v)) == MapAnnotationValueOption(t, Respell(resolve, v))
  }

  ghost predicate EncodesTypeParameter(strings: seq<string>, resolve: Symbol -> string, r: TypeParameter<nat>, t: TypeParameter<Symbol>) {
    forall v: Reader :: Extends(strings, v) ==> MapTypeParameter(r, Look(v)) == MapTypeParameter(t, Respell(resolve, v))
  }

  ghost predicate EncodesTypeParameters(strings: seq<string>, resolve: Symbol -> string, r: seq<TypeParameter<nat>>, t: seq<TypeParameter<Symbol>>) {
    forall v: Reader :: Extends(strings, v) ==> MapTypeParameters(r, Look(v)) == MapTypeParameters(t, Respell(resolve, v))
  }

  ghost predicate EncodesParam(strings: seq<string>, resolve: Symbol -> string, r: Param<nat>, t: Param<Symbol>) {
    forall v: Reader :: Extends(strings, v) ==> MapParam(r, Look(v)) == MapParam(t, Respell(resolve, v))
  }

  ghost predicate EncodesParams(strings: seq<string>, resolve: Symbol -> string, r: seq<Param<nat>>, t: seq<Param<Symbol>>) {
    forall v: Reader :: Extends(strings, v) ==> MapParams(r, Look(v)) == MapParams(t, Respell(resolve, v))
  }

  ghost predicate EncodesMethod(strings: seq<string>, resolve: Symbol -> string, r: MethodStub<nat>, t: MethodStub<Symbol>) {
    forall v: Reader :: Extends(strings, v) ==> MapMethod(r, Look(v)) == MapMethod(t, Respell(resolve, v))
  }

  ghost predicate EncodesMethods(strings: seq<string>, resolve: Symbol -> string, r: seq<MethodStub<nat>>, t: seq<MethodStub<Symbol>>) {
    forall v: Reader :: Extends(strings, v) ==> MapMethods(r, Look(v)) == MapMethods(t, Respell(resolve, v))
  }

  ghost predicate EncodesField(strings: seq<string>, resolve: Symbol -> string, r: FieldStub<nat>, t: FieldStub<Symbol>) {
    forall v: Reader :: Extends(strings, v) ==> MapField(r, Look(v)) == MapField(t, Respell(resolve, v))
  }

  ghost predicate EncodesFields(strings: seq<string>, resolve: Symbol -> string, r: seq<FieldStub<nat>>, t: seq<FieldStub<Symbol>>) {
    forall v: Reader :: Extends(strings, v) ==> MapFields(r, Look(v)) == MapFields(t, Respell(resolve, v))
  }

  ghost predicate EncodesRecordComponent(strings: seq<string>, resolve: Symbol -> string, r: RecordComponent<nat>, t: RecordComponent<Symbol>) {
    forall v: Reader :: Extends(strings, v) ==> MapRecordComponent(r, Look(v)) == MapRecordComponent(t, Respell(resolve, v))
  }

  ghost predicate EncodesRecordComponents(strings: seq<string>, resolve: Symbol -> string, r: seq<RecordComponent<nat>>, t: seq<RecordComponent<Symbol>>) {
    forall v: Reader :: Extends(strings, v) ==> MapRecordComponents(r, Look(v)) == MapRecordComponents(t, Respell(resolve, v))
  }

  ghost predicate EncodesClass(strings: seq<string>, resolve: Symbol -> string, r: ClassStub<nat>, t: ClassStub<Symbol>) {
    forall v: Reader :: Extends(strings, v) ==> MapClass(r, Look(v)) == MapClass(t, Respell(resolve, v))
  }

  ghost predicate EncodesRequires(strings: seq<string>, resolve: Symbol -> string, r: seq<ModuleRequires<nat>>, t: seq<ModuleRequires<Symbol>>) {
    forall v: Reader :: Extends(strings, v) ==> MapRequires(r, Look(v)) == MapRequires(t, Respell(resolve, v))
  }

  ghost predicate EncodesExports(strings: seq<string>, resolve: Symbol -> string, r: seq<ModuleExports<nat>>, t: seq<ModuleExports<Symbol>>) {
    forall v: Reader :: Extends(strings, v) ==> MapExports(r, Look(v)) == MapExports(t, Respell(resolve, v))
  }

  ghost predicate EncodesProvides(strings: seq<string>, resolve: Symbol -> string, r: seq<ModuleProvides<nat>>, t: seq<ModuleProvides<Symbol>>) {
    forall v: Reader :: Extends(strings, v) ==> MapProvides(r, Look(v)) == MapProvides(t, Respell(resolve, v))
  }

  ghost predicate EncodesModule(strings: seq<string>, resolve: Symbol -> string, r: ModuleStub<nat>, t: ModuleStub<Symbol>) {
    forall v: Reader :: Extends(strings, v) ==> MapModule(r, Look(v)) == MapModule(t, Respell(resolve, v))
  }

  ghost predicate EncodesStub(strings: seq<string>, resolve: Symbol -> string, r: ClassOrModuleStub<nat>, t: ClassOrModuleStub<Symbol>) {
    forall v: Reader :: Extends(strings, v) ==> MapStub(r, Look(v)) == MapStub(t, Respell(resolve, v))
  }

  class StubStringTable {
    const resolve: Symbol -> string
    var strings: seq<string>
    var strToIdx: map<string, nat>
    var symbolToIdx: map<Symbol, nat>

    ghost predicate Valid()
      reads this
    {
      && (forall i, j | 0 <= i < j < |strings| :: strings[i] != strings[j])
      && (forall s :: s in strToIdx <==> s in strings)
      && (forall s | s in strToIdx :: strToIdx[s] < TABLE_LIMIT)
      && (|strings| <= TABLE_LIMIT ==>
            forall s | s in strToIdx :: strToIdx[s] < |strings| && strings[strToIdx[s]] == s)
      && (forall s | s in symbolToIdx :: resolve(s) in strToIdx && symbolToIdx[s] == strToIdx[resolve(s)])
    }

    constructor (resolve: Symbol -> string)
      ensures Valid() && this.resolve == resolve && strings == []
    {
      this.resolve := resolve;
      strings, strToIdx, symbolToIdx := [], map[], map[];
    }

    method InternStr(s: string) returns (idx: nat)
      requires Valid()
      modifies this`strings, this`strToIdx
      ensures Valid() && old(strings) <= strings
      ensures strings == if s in old(strings) then old(strings) else old(strings) + [s]
      ensures s in strToIdx && idx == strToIdx[s]
    {
      if s in strToIdx {
        return strToIdx[s];
      }
      idx := |strings| % TABLE_LIMIT;
      strings := strings + [s];
      strToIdx := strToIdx[s := idx];
    }

    method Name(s: Symbol) returns (idx: nat)
      requires Valid()
      modifies this
      ensures Valid() && old(strings) <= strings
      ensures EncodesName(strings, resolve, idx, s)
    {
      if s in symbolToIdx {
        idx := symbolToIdx[s];
      } else {
        idx := InternStr(resolve(s));
        symbolToIdx := symbolToIdx[s := idx];
      }
      forall v: Reader | Extends(strings, v) ensures Look(v)(idx) == Respell(resolve, v)(s) {
        assert v.table[idx] == strings[idx];
      }
    }

    method NameOption(t: Option<Symbol>) returns (r: Option<nat>)
      requires Valid()
      modifies this
      ensures Valid() && old(strings) <= strings
      ensures EncodesNameOption(strings, resolve, r, t)
    {
      if t.Some? {
        var n := Name(t.value);
        r := Some(n);
      } else {
        r := None;
      }
    }

    method Names(t: seq<Symbol>) returns (r: seq<nat>)
      requires Valid()
      modifies this
      ensures Valid() && old(strings) <= strings
      ensures EncodesNames(strings, resolve, r, t)
    {
      r := [];
      for i := 0 to |t|
        invariant Valid() && old(strings) <= strings
        invariant EncodesNames(strings, resolve, r, t[..i])
      {
        ghost var before, encoded := strings, r;
        var x := Name(t[i]);
        ExtendsEarlier(before, strings);
        r := r + [x];
        forall v: Reader | Extends(strings, v) ensures MapNames(r, Look(v)) == MapNames(t[..i + 1], Respell(resolve, v)) {
          assert MapNames(r, Look(v)) == MapNames(encoded, Look(v)) + MapNames([x], Look(v));
          assert MapNames(t[..i + 1], Respell(resolve, v))
              == MapNames(t[..i], Respell(resolve, v)) + MapNames([t[i]], Respell(resolve, v));
        }
      }
      assert t[..|t|] == t;
    }

    method TypeRef(t: TypeRef<Symbol>) returns (r: TypeRef<nat>)
      requires Valid()
      modifies this
      ensures Valid() && old(strings) <= strings
      ensures EncodesTypeRef(strings, resolve, r, t)
      decreases t, 1
    {
      match t
      case Primitive(p) => r := Primitive(p);
      case Reference(name, args) =>
        var n := Name(name);
        ghost var s0 := strings;
        var rs := TypeRefs(args, t);
        ExtendsEarlier(s0, strings);
        r := Reference(n, rs);
        forall v: Reader | Extends(strings, v) ensures MapTypeRef(r, Look(v)) == MapTypeRef(t, Respell(resolve, v)) {
          assert Look(v)(n) == Respell(resolve, v)(name);
          assert MapTypeRefs(rs, Look(v)) == MapTypeRefs(args, Respell(resolve, v));
          assert MapTypeRef(r, Look(v)) == Reference(Look(v)(n), MapTypeRefs(rs, Look(v)));
          assert MapTypeRef(t, Respell(resolve, v))
              == Reference(Respell(resolve, v)(name), MapTypeRefs(args, Respell(resolve, v)));
        }
      case Wildcard(bound) =>
        if bound.Some? {
          var b := TypeBound(bound.value);
          r := Wildcard(Some(b));
        } else {
          r := Wildcard(None);
        }
      case TypeVariable(name) =>
        var n := Name(name);
        r := TypeVariable(n);
      case Array(inner) =>
        var i := TypeRef(inner);
        r := Array(i);
      case Error => r := Error;
      case Nullable(inner) =>
        var i := TypeRef(inner);
        r := Nullable(i);
      case DefinitelyNonNull(inner) =>
        var i := TypeRef(inner);
        r := DefinitelyNonNull(i);
      case Void => r := Void;
    }

    method TypeBound(t: TypeBound<Symbol>) returns (r: TypeBound<nat>)
      requires Valid()
      modifies this
      ensures Valid() && old(strings) <= strings
      ensures EncodesTypeBound(strings, resolve, r, t)
      decreases t, 1
    {
      var ty := TypeRef(t.ty);
      r := if t.Upper? then Upper(ty) else Lower(ty);
    }

    method TypeRefs(t: seq<TypeRef<Symbol>>, ghost bound: TypeRef<Symbol>) returns (r: seq<TypeRef<nat>>)
      requires Valid()
      requires forall i | 0 <= i < |t| :: t[i] < bound
      modifies this
      ensures Valid() && old(strings) <= strings
      ensures EncodesTypeRefs(strings, resolve, r, t)
      decreases bound, 0
    {
      r := [];
      for i := 0 to |t|
        invariant Valid() && old(strings) <= strings
        invariant EncodesTypeRefs(strings, resolve, r, t[..i])
      {
        ghost var before, encoded := strings, r;
        var x := TypeRef(t[i]);
        ExtendsEarlier(before, strings);
        r := r + [x];
        forall v: Reader | Extends(strings, v) ensures MapTypeRefs(r, Look(v)) == MapTypeRefs(t[..i + 1], Respell(resolve, v)) {
          assert MapTypeRefs(r, Look(v)) == MapTypeRefs(encoded, Look(v)) + MapTypeRefs([x], Look(v));
          assert MapTypeRefs(t[..i + 1], Respell(resolve, v))
              == MapTypeRefs(t[..i], Respell(resolve, v)) + MapTypeRefs([t[i]], Respell(resolve, v));
        }
      }
      assert t[..|t|] == t;
    }

    method TypeRefOption(t: Option<TypeRef<Symbol>>) returns (r: Option<TypeRef<nat>>)
      requires Valid()
      modifies this
      ensures Valid() && old(strings) <= strings
      ensures EncodesTypeRefOption(strings, resolve, r, t)
    {
      if t.Some? {
        var x := TypeRef(t.value);
        r := Some(x);
      } else {
        r := None;
      }
    }

    method Annotation(t: AnnotationSig<Symbol>) returns (r: AnnotationSig<nat>)
      requires Valid()
      modifies this
      ensures Valid() && old(strings) <= strings
      ensures EncodesAnnotation(strings, resolve, r, t)
      decreases t, 1
    {
      var ty := TypeRef(t.annotationType);
      ghost var s0 := strings;
      var args := Arguments(t.arguments, t);
      ExtendsEarlier(s0, strings);
      r := AnnotationSig(ty, args);
      forall v: Reader | Extends(strings, v) ensures MapAnnotation(r, Look(v)) == MapAnnotation(t, Respell(resolve, v)) {
        assert MapArguments(args, Look(v)) == MapArguments(t.arguments, Respell(resolve, v));
        assert MapAnnotation(r, Look(v)) == AnnotationSig(MapTypeRef(ty, Look(v)), MapArguments(args, Look(v)));
        assert MapAnnotation(t, Respell(resolve, v))
            == AnnotationSig(MapTypeRef(t.annotationType, Respell(resolve, v)), MapArguments(t.arguments, Respell(resolve, v)));
      }
    }

    method Arguments(t: seq<Argument<Symbol>>, ghost bound: AnnotationSig<Symbol>) returns (r: seq<Argument<nat>>)
      requires Valid()
      requires forall i | 0 <= i < |t| :: t[i] < bound
      modifies this
      ensures Valid() && old(strings) <= strings
      ensures EncodesArguments(strings, resolve, r, t)
      decreases bound, 0
    {
      r := [];
      for i := 0 to |t|
        invariant Valid() && old(strings) <= strings
        invariant EncodesArguments(strings, resolve, r, t[..i])
      {
        ghost var before, encoded := strings, r;
        var name := Name(t[i].name);
        ghost var s0 := strings;
        var value := AnnotationValue(t[i].value);
        ExtendsEarlier(s0, strings);
        var x := Argument(name, value);
        ExtendsEarlier(before, strings);
        r := r + [x];
        forall v: Reader | Extends(strings, v) ensures MapArguments(r, Look(v)) == MapArguments(t[..i + 1], Respell(resolve, v)) {
          assert MapArguments(r, Look(v)) == MapArguments(encoded, Look(v)) + MapArguments([x], Look(v));
          assert MapArguments(t[..i + 1], Respell(resolve, v))
              == MapArguments(t[..i], Respell(resolve, v)) + MapArguments([t[i]], Respell(resolve, v));
        }
      }
      assert t[..|t|] == t;
    }

    method AnnotationValue(t: AnnotationValue<Symbol>) returns (r: AnnotationValue<nat>)
      requires Valid()
      modifies this
      ensures Valid() && old(strings) <= strings
      ensures EncodesAnnotationValue(strings, resolve, r, t)
      decreases t, 1
    {
      match t
      case StringValue(text) =>
        var n := Name(text);
        r := StringValue(n);
      case PrimitiveConstant(p) => r := PrimitiveConstant(p);
      case ClassValue(ty) =>
        var x := TypeRef(ty);
        r := ClassValue(x);
      case EnumValue(ty, entry) =>
        var x := TypeRef(ty);
        ghost var s0 := strings;
        var n := Name(entry);
        ExtendsEarlier(s0, strings);
        r := EnumValue(x, n);
      case Nested(annotation) =>
        var x := Annotation(annotation);
        r := Nested(x);
      case Values(elements) =>
        var xs := AnnotationValues(elements, t);
        r := Values(xs);
        forall v: Reader | Extends(strings, v)
          ensures MapAnnotationValue(r, Look(v)) == MapAnnotationValue(t, Respell(resolve, v))
        {
          assert MapAnnotationValues(xs, Look(v)) == MapAnnotationValues(elements, Respell(resolve, v));
          assert MapAnnotationValue(r, Look(v)) == Values(MapAnnotationValues(xs, Look(v)));
          assert MapAnnotationValue(t, Respell(resolve, v)) == Values(MapAnnotationValues(elements, Respell(resolve, v)));
        }
    }

    method AnnotationValues(t: seq<AnnotationValue<Symbol>>, ghost bound: AnnotationValue<Symbol>) returns (r: seq<AnnotationValue<nat>>)
      requires Valid()
      requires forall i | 0 <= i < |t| :: t[i] < bound
      modifies this
      ensures Valid() && old(strings) <= strings
      ensures EncodesAnnotationValues(strings, resolve, r, t)
      decreases bound, 0
    {
      r := [];
      for i := 0 to |t|
        invariant Valid() && old(strings) <= strings
        invariant EncodesAnnotationValues(strings, resolve, r, t[..i])
      {
        ghost var before, encoded := strings, r;
        var x := AnnotationValue(t[i]);
        ExtendsEarlier(before, strings);
        r := r + [x];
        forall v: Reader | Extends(strings, v) ensures MapAnnotationValues(r, Look(v)) == MapAnnotationValues(t[..i + 1], Respell(resolve, v)) {
          assert MapAnnotationValues(r, Look(v)) == MapAnnotationValues(encoded, Look(v)) + MapAnnotationValues([x], Look(v));
          assert MapAnnotationValues(t[..i + 1], Respell(resolve, v))
              == MapAnnotationValues(t[..i], Respell(resolve, v)) + MapAnnotationValues([t[i]], Respell(resolve, v));
        }
      }
      assert t[..|t|] == t;
    }

    method AnnotationValueOption(t: Option<AnnotationValue<Symbol>>) returns (r: Option<AnnotationValue<nat>>)
      requires Valid()
      modifies this
      ensures Valid() && old(strings) <= strings
      ensures EncodesAnnotationValueOption(strings, resolve, r, t)
    {
      if t.Some? {
        var x := AnnotationValue(t.value);
        r := Some(x);
      } else {
        r := None;
      }
    }

    method Annotations(t: seq<AnnotationSig<Symbol>>) returns (r: seq<AnnotationSig<nat>>)
      requires Valid()
      modifies this
      ensures Valid() && old(strings) <= strings
      ensures EncodesAnnotations(strings, resolve, r, t)
    {
      r := [];
      for i := 0 to |t|
        invariant Valid() && old(strings) <= strings
        invariant EncodesAnnotations(strings, resolve, r, t[..i])
      {
        ghost var before, encoded := strings, r;
        var x := Annotation(t[i]);
        ExtendsEarlier(before, strings);
        r := r + [x];
        forall v: Reader | Extends(strings, v) ensures MapAnnotations(r, Look(v)) == MapAnnotations(t[..i + 1], Respell(resolve, v)) {
          assert MapAnnotations(r, Look(v)) == MapAnnotations(encoded, Look(v)) + MapAnnotations([x], Look(v));
          assert MapAnnotations(t[..i + 1], Respell(resolve, v))
              == MapAnnotations(t[..i], Respell(resolve, v)) + MapAnnotations([t[i]], Respell(resolve, v));
        }
      }
      assert t[..|t|] == t;
    }

    method TypeParameter(t: TypeParameter<Symbol>) returns (r: TypeParameter<nat>)
      requires Valid()
      modifies this
      ensures Valid() && old(strings) <= strings
      ensures EncodesTypeParameter(strings, resolve, r, t)
    {
      var name := Name(t.name);
      ghost var s0 := strings;
      var bounds := TypeRefs(t.bounds, Stubs.Reference(0, t.bounds));
      ghost var s1 := strings;
      var annotations := Annotations(t.annotations);
      ExtendsEarlier(s0, strings);
      ExtendsEarlier(s1, strings);
      r := Stubs.TypeParameter.TypeParameter(name, bounds, annotations);
    }

    method TypeParameters(t: seq<TypeParameter<Symbol>>) returns (r: seq<TypeParameter<nat>>)
      requires Valid()
      modifies this
      ensures Valid() && old(strings) <= strings
      ensures EncodesTypeParameters(strings, resolve, r, t)
    {
      r := [];
      for i := 0 to |t|
        invariant Valid() && old(strings) <= strings
        invariant EncodesTypeParameters(strings, resolve, r, t[..i])
      {
        ghost var before, encoded := strings, r;
        var x := TypeParameter(t[i]);
        ExtendsEarlier(before, strings);
        r := r + [x];
        forall v: Reader | Extends(strings, v) ensures MapTypeParameters(r, Look(v)) == MapTypeParameters(t[..i + 1], Respell(resolve, v)) {
          assert MapTypeParameters(r, Look(v)) == MapTypeParameters(encoded, Look(v)) + MapTypeParameters([x], Look(v));
          assert MapTypeParameters(t[..i + 1], Respell(resolve, v))
              == MapTypeParameters(t[..i], Respell(resolve, v)) + MapTypeParameters([t[i]], Respell(resolve, v));
        }
      }
      assert t[..|t|] == t;
    }

    method Param(t: Param<Symbol>) returns (r: Param<nat>)
      requires Valid()
      modifies this
      ensures Valid() && old(strings) <= strings
      ensures EncodesParam(strings, resolve, r, t)
    {
      var name := NameOption(t.name);
      ghost var s0 := strings;
      var ty := TypeRef(t.paramType);
      ghost var s1 := strings;
      var annotations := Annotations(t.annotations);
      ExtendsEarlier(s0, strings);
      ExtendsEarlier(s1, strings);
      r := Stubs.Param.Param(t.flags, name, ty, annotations);
    }

    method Params(t: seq<Param<Symbol>>) returns (r: seq<Param<nat>>)
      requires Valid()
      modifies this
      ensures Valid() && old(strings) <= strings
      ensures EncodesParams(strings, resolve, r, t)
    {
      r := [];
      for i := 0 to |t|
        invariant Valid() && old(strings) <= strings
        invariant EncodesParams(strings, resolve, r, t[..i])
      {
        ghost var before, encoded := strings, r;
        var x := Param(t[i]);
        ExtendsEarlier(before, strings);
        r := r + [x];
        forall v: Reader | Extends(strings, v) ensures MapParams(r, Look(v)) == MapParams(t[..i + 1], Respell(resolve, v)) {
          assert MapParams(r, Look(v)) == MapParams(encoded, Look(v)) + MapParams([x], Look(v));
          assert MapParams(t[..i + 1], Respell(resolve, v))
              == MapParams(t[..i], Respell(resolve, v)) + MapParams([t[i]], Respell(resolve, v));
        }
      }
      assert t[..|t|] == t;
    }

    method Method(t: MethodStub<Symbol>) returns (r: MethodStub<nat>)
      requires Valid()
      modifies this
      ensures Valid() && old(strings) <= strings
      ensures EncodesMethod(strings, resolve, r, t)
    {
      var name := Name(t.name);
      ghost var s0 := strings;
      var descriptor := Name(t.descriptor);
      ghost var s1 := strings;
      var ty := TypeRef(t.returnType);
      ghost var s2 := strings;
      var typeParams := TypeParameters(t.typeParams);
      ghost var s3 := strings;
      var throwsList := TypeRefs(t.throwsList, Stubs.Reference(0, t.throwsList));
      ghost var s4 := strings;
      var params := Params(t.params);
      ghost var s5 := strings;
      var annotations := Annotations(t.annotations);
      ghost var s6 := strings;
      var default := AnnotationValueOption(t.defaultValue);
      ExtendsEarlier(s0, strings);
      ExtendsEarlier(s1, strings);
      ExtendsEarlier(s2, strings);
      ExtendsEarlier(s3, strings);
      ExtendsEarlier(s4, strings);
      ExtendsEarlier(s5, strings);
      ExtendsEarlier(s6, strings);
      r := MethodStub(
        t.flags, name, descriptor, ty, typeParams, throwsList, params, annotations, default, t.deprecated);
    }

    method Methods(t: seq<MethodStub<Symbol>>) returns (r: seq<MethodStub<nat>>)
      requires Valid()
      modifies this
      ensures Valid() && old(strings) <= strings
      ensures EncodesMethods(strings, resolve, r, t)
    {
      r := [];
      for i := 0 to |t|
        invariant Valid() && old(strings) <= strings
        invariant EncodesMethods(strings, resolve, r, t[..i])
      {
        ghost var before, encoded := strings, r;
        var x := Method(t[i]);
        ExtendsEarlier(before, strings);
        r := r + [x];
        forall v: Reader | Extends(strings, v) ensures MapMethods(r, Look(v)) == MapMethods(t[..i + 1], Respell(resolve, v)) {
          assert MapMethods(r, Look(v)) == MapMethods(encoded, Look(v)) + MapMethods([x], Look(v));
          assert MapMethods(t[..i + 1], Respell(resolve, v))
              == MapMethods(t[..i], Respell(resolve, v)) + MapMethods([t[i]], Respell(resolve, v));
        }
      }
      assert t[..|t|] == t;
    }

    method Field(t: FieldStub<Symbol>) returns (r: FieldStub<nat>)
      requires Valid()
      modifies this
      ensures Valid() && old(strings) <= strings
      ensures EncodesField(strings, resolve, r, t)
    {
      var name := Name(t.name);
      ghost var s0 := strings;
      var descriptor := Name(t.descriptor);
      ghost var s1 := strings;
      var ty := TypeRef(t.fieldType);
      ghost var s2 := strings;
      var annotations := Annotations(t.annotations);
      ghost var s3 := strings;
      var constant := AnnotationValueOption(t.constantValue);
      ExtendsEarlier(s0, strings);
      ExtendsEarlier(s1, strings);
      ExtendsEarlier(s2, strings);
      ExtendsEarlier(s3, strings);
      r := FieldStub(name, descriptor, t.flags, ty, annotations, constant, t.deprecated);
    }

    method Fields(t: seq<FieldStub<Symbol>>) returns (r: seq<FieldStub<nat>>)
      requires Valid()
      modifies this
      ensures Valid() && old(strings) <= strings
      ensures EncodesFields(strings, resolve, r, t)
    {
      r := [];
      for i := 0 to |t|
        invariant Valid() && old(strings) <= strings
        invariant EncodesFields(strings, resolve, r, t[..i])
      {
        ghost var before, encoded := strings, r;
        var x := Field(t[i]);
        ExtendsEarlier(before, strings);
        r := r + [x];
        forall v: Reader | Extends(strings, v) ensures MapFields(r, Look(v)) == MapFields(t[..i + 1], Respell(resolve, v)) {
          assert MapFields(r, Look(v)) == MapFields(encoded, Look(v)) + MapFields([x], Look(v));
          assert MapFields(t[..i + 1], Respell(resolve, v))
              == MapFields(t[..i], Respell(resolve, v)) + MapFields([t[i]], Respell(resolve, v));
        }
      }
      assert t[..|t|] == t;
    }

    method RecordComponent(t: RecordComponent<Symbol>) returns (r: RecordComponent<nat>)
      requires Valid()
      modifies this
      ensures Valid() && old(strings) <= strings
      ensures EncodesRecordComponent(strings, resolve, r, t)
    {
      var name := Name(t.name);
      ghost var s0 := strings;
      var ty := TypeRef(t.componentType);
      ghost var s1 := strings;
      var annotations := Annotations(t.annotations);
      ExtendsEarlier(s0, strings);
      ExtendsEarlier(s1, strings);
      r := Stubs.RecordComponent.RecordComponent(name, ty, t.varargs, annotations);
    }

    method RecordComponents(t: seq<RecordComponent<Symbol>>) returns (r: seq<RecordComponent<nat>>)
      requires Valid()
      modifies this
      ensures Valid() && old(strings) <= strings
      ensures EncodesRecordComponents(strings, resolve, r, t)
    {
      r := [];
      for i := 0 to |t|
        invariant Valid() && old(strings) <= strings
        invariant EncodesRecordComponents(strings, resolve, r, t[..i])
      {
        ghost var before, encoded := strings, r;
        var x := RecordComponent(t[i]);
        ExtendsEarlier(before, strings);
        r := r + [x];
        forall v: Reader | Extends(strings, v) ensures MapRecordComponents(r, Look(v)) == MapRecordComponents(t[..i + 1], Respell(resolve, v)) {
          assert MapRecordComponents(r, Look(v)) == MapRecordComponents(encoded, Look(v)) + MapRecordComponents([x], Look(v));
          assert MapRecordComponents(t[..i + 1], Respell(resolve, v))
              == MapRecordComponents(t[..i], Respell(resolve, v)) + MapRecordComponents([t[i]], Respell(resolve, v));
        }
      }
      assert t[..|t|] == t;
    }

    /** The names and types a class declares itself with. */
    method ClassHeader(t: ClassStub<Symbol>)
      returns (fqn: nat, name: nat, superClass: Option<TypeRef<nat>>, interfaces: seq<TypeRef<nat>>)
      requires Valid()
      modifies this
      ensures Valid() && old(strings) <= strings
      ensures EncodesName(strings, resolve, fqn, t.fqn) && EncodesName(strings, resolve, name, t.name)
      ensures EncodesTypeRefOption(strings, resolve, superClass, t.superClass)
      ensures EncodesTypeRefs(strings, resolve, interfaces, t.interfaces)
    {
      fqn := Name(t.fqn);
      ghost var s0 := strings;
      name := Name(t.name);
      ghost var s1 := strings;
      superClass := TypeRefOption(t.superClass);
      ghost var s2 := strings;
      interfaces := TypeRefs(t.interfaces, Stubs.Reference(0, t.interfaces));
      ExtendsEarlier(s0, strings);
      ExtendsEarlier(s1, strings);
      ExtendsEarlier(s2, strings);
    }

    method ClassMembers(t: ClassStub<Symbol>)
      returns (typeParams: seq<TypeParameter<nat>>, methods: seq<MethodStub<nat>>, fields: seq<FieldStub<nat>>)
      requires Valid()
      modifies this
      ensures Valid() && old(strings) <= strings
      ensures EncodesTypeParameters(strings, resolve, typeParams, t.typeParams)
      ensures EncodesMethods(strings, resolve, methods, t.methods)
      ensures EncodesFields(strings, resolve, fields, t.fields)
    {
      typeParams := TypeParameters(t.typeParams);
      ghost var s0 := strings;
      methods := Methods(t.methods);
      ghost var s1 := strings;
      fields := Fields(t.fields);
      ExtendsEarlier(s0, strings);
      ExtendsEarlier(s1, strings);
    }

    method ClassTail(t: ClassStub<Symbol>)
      returns (permitted: seq<TypeRef<nat>>, components: seq<RecordComponent<nat>>, annotations: seq<AnnotationSig<nat>>)
      requires Valid()
      modifies this
      ensures Valid() && old(strings) <= strings
      ensures EncodesTypeRefs(strings, resolve, permitted, t.permittedSubclasses)
      ensures EncodesRecordComponents(strings, resolve, components, t.recordComponents)
      ensures EncodesAnnotations(strings, resolve, annotations, t.annotations)
    {
      permitted := TypeRefs(t.permittedSubclasses, Stubs.Reference(0, t.permittedSubclasses));
      ghost var s0 := strings;
      components := RecordComponents(t.recordComponents);
      ghost var s1 := strings;
      annotations := Annotations(t.annotations);
      ExtendsEarlier(s0, strings);
      ExtendsEarlier(s1, strings);
    }

    /** The fields in the order their names are interned. */
    method Class(t: ClassStub<Symbol>) returns (r: ClassStub<nat>)
      requires Valid()
      modifies this
      ensures Valid() && old(strings) <= strings
      ensures EncodesClass(strings, resolve, r, t)
    {
      var fqn, name, superClass, interfaces := ClassHeader(t);
      ghost var s0 := strings;
      var typeParams, methods, fields := ClassMembers(t);
      ghost var s1 := strings;
      var permitted, components, annotations := ClassTail(t);
      ExtendsEarlier(s0, strings);
      ExtendsEarlier(s1, strings);
      r := ClassStub(
        fqn, name, t.flags, t.isRecord, t.deprecated, superClass, interfaces, typeParams, methods, fields,
        permitted, components, annotations);
    }

    method Requires(t: seq<ModuleRequires<Symbol>>) returns (r: seq<ModuleRequires<nat>>)
      requires Valid()
      modifies this
      ensures Valid() && old(strings) <= strings
      ensures EncodesRequires(strings, resolve, r, t)
    {
      r := [];
      for i := 0 to |t|
        invariant Valid() && old(strings) <= strings
        invariant EncodesRequires(strings, resolve, r, t[..i])
      {
        ghost var before, encoded := strings, r;
        var name := Name(t[i].moduleName);
        ghost var s0 := strings;
        var version := NameOption(t[i].compiledVersion);
        ExtendsEarlier(s0, strings);
        var x := ModuleRequires(name, t[i].flags, version);
        ExtendsEarlier(before, strings);
        r := r + [x];
        forall v: Reader | Extends(strings, v) ensures MapRequires(r, Look(v)) == MapRequires(t[..i + 1], Respell(resolve, v)) {
          assert MapRequires(r, Look(v)) == MapRequires(encoded, Look(v)) + MapRequires([x], Look(v));
          assert MapRequires(t[..i + 1], Respell(resolve, v))
              == MapRequires(t[..i], Respell(resolve, v)) + MapRequires([t[i]], Respell(resolve, v));
        }
      }
      assert t[..|t|] == t;
    }

    method Exports(t: seq<ModuleExports<Symbol>>) returns (r: seq<ModuleExports<nat>>)
      requires Valid()
      modifies this
      ensures Valid() && old(strings) <= strings
      ensures EncodesExports(strings, resolve, r, t)
    {
      r := [];
      for i := 0 to |t|
        invariant Valid() && old(strings) <= strings
        invariant EncodesExports(strings, resolve, r, t[..i])
      {
        ghost var before, encoded := strings, r;
        var name := Name(t[i].packageName);
        ghost var s0 := strings;
        var modules := Names(t[i].toModules);
        ExtendsEarlier(s0, strings);
        var x := ModuleExports(name, t[i].flags, modules);
        ExtendsEarlier(before, strings);
        r := r + [x];
        forall v: Reader | Extends(strings, v) ensures MapExports(r, Look(v)) == MapExports(t[..i + 1], Respell(resolve, v)) {
          assert MapExports(r, Look(v)) == MapExports(encoded, Look(v)) + MapExports([x], Look(v));
          assert MapExports(t[..i + 1], Respell(resolve, v))
              == MapExports(t[..i], Respell(resolve, v)) + MapExports([t[i]], Respell(resolve, v));
        }
      }
      assert t[..|t|] == t;
    }

    method Provides(t: seq<ModuleProvides<Symbol>>) returns (r: seq<ModuleProvides<nat>>)
      requires Valid()
      modifies this
      ensures Valid() && old(strings) <= strings
      ensures EncodesProvides(strings, resolve, r, t)
    {
      r := [];
      for i := 0 to |t|
        invariant Valid() && old(strings) <= strings
        invariant EncodesProvides(strings, resolve, r, t[..i])
      {
        ghost var before, encoded := strings, r;
        var service := TypeRef(t[i].serviceInterface);
        ghost var s0 := strings;
        var impls := TypeRefs(t[i].withImplementations, Stubs.Reference(0, t[i].withImplementations));
        ExtendsEarlier(s0, strings);
        var x := ModuleProvides(service, impls);
        ExtendsEarlier(before, strings);
        r := r + [x];
        forall v: Reader | Extends(strings, v) ensures MapProvides(r, Look(v)) == MapProvides(t[..i + 1], Respell(resolve, v)) {
          assert MapProvides(r, Look(v)) == MapProvides(encoded, Look(v)) + MapProvides([x], Look(v));
          assert MapProvides(t[..i + 1], Respell(resolve, v))
              == MapProvides(t[..i], Respell(resolve, v)) + MapProvides([t[i]], Respell(resolve, v));
        }
      }
      assert t[..|t|] == t;
    }

    method Module(t: ModuleStub<Symbol>) returns (r: ModuleStub<nat>)
      requires Valid()
      modifies this
      ensures Valid() && old(strings) <= strings
      ensures EncodesModule(strings, resolve, r, t)
    {
      var name := Name(t.name);
      ghost var s0 := strings;
      var version := NameOption(t.version);
      ghost var s1 := strings;
      var requirements := Requires(t.requirements);
      ghost var s2 := strings;
      var exported := Exports(t.exported);
      ghost var s3 := strings;
      var opens := Exports(t.opens);
      ghost var s4 := strings;
      var uses := TypeRefs(t.uses, Stubs.Reference(0, t.uses));
      ghost var s5 := strings;
      var provided := Provides(t.provided);
      ExtendsEarlier(s0, strings);
      ExtendsEarlier(s1, strings);
      ExtendsEarlier(s2, strings);
      ExtendsEarlier(s3, strings);
      ExtendsEarlier(s4, strings);
      ExtendsEarlier(s5, strings);
      r := ModuleStub(name, t.flags, version, requirements, exported, opens, uses, provided);
    }
  }
}
