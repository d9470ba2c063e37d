/** What emit_proto, emit_enum, emit_fields and emit_field write
    (src/main.rs:237-355), as functions from the IR to schema statements, or to the
    panic that stops the translation. */
module Lowering {
  import opened Wrappers
  import opened Ir
  import opened Primitives
  import opened Naming
  import opened Schema

  /** The panics of the lowering. */
  datatype Panic =
    | UnsupportedTupleFields     // tuple fields reaching emit_fields
    | UnsupportedNestedGeneric   // a generic argument that is itself generic
    | UnsupportedGenericArity    // `singular` / `double` returning None
    | UnsupportedGenericType     // a generic name other than Vec, HashMap, Option

  /** simple_type: the name of a non-generic argument. */
  function SimpleType(ty: TypeRef): (r: Result<string, Panic>)
    ensures r.Success? <==> ty.Normal?
    ensures r.Success? ==> r.value == ty.name
    ensures r.Failure? ==> r.error == UnsupportedNestedGeneric
  {
    match ty
    case Normal(name) => Success(name)
    case Generic(_, _) => Failure(UnsupportedNestedGeneric)
  }

  /** The field types the lowering accepts: a name, `Vec<N>`, `Option<N>` or
      `HashMap<K, V>` with non-generic arguments. */
  predicate Supported(ty: TypeRef)
  {
    match ty
    case Normal(_) => true
    case Generic(g, args) =>
      ((g == "Vec" || g == "Option") && |args| == 1 && args[0].Normal?) ||
      (g == "HashMap" && |args| == 2 && args[0].Normal? && args[1].Normal?)
  }

  /** The panic an unsupported field type causes. */
  function ExpectedPanic(ty: TypeRef): Panic
    requires !Supported(ty)
  {
    if ty.name != "Vec" && ty.name != "Option" && ty.name != "HashMap" then UnsupportedGenericType
    else if |ty.args| != (if ty.name == "HashMap" then 2 else 1) then UnsupportedGenericArity
    else UnsupportedNestedGeneric
  }

  /** A non-generic field: a primitive under its protobuf name, any other type as a
      non-nullable field under its own name. */
  function LowerNormal(fieldName: string, name: string, id: nat): (s: Stmt)
    ensures StmtIds(s) == [id]
    ensures s.Field? && s.fieldName == fieldName && s.id == id
    ensures s.kind == (if name in PrimitiveNames then Plain else Defaulted)
    ensures s.ty == (if name in PrimitiveNames then TranslateSimpleTypeName(name).value else name)
  {
    match TranslateSimpleTypeName(name)
    case Some(simple) => Field(Plain, simple, fieldName, id)
    case None => Field(Defaulted, name, fieldName, id)
  }

  /** `Vec<T>`: `bytes` for `Vec<u8>`, a repeated field of the raw element name otherwise. */
  function LowerVec(fieldName: string, args: seq<TypeRef>, id: nat): (r: Result<Stmt, Panic>)
    ensures r.Success? <==> |args| == 1 && args[0].Normal?
    ensures r.Failure? ==> r.error == (if |args| != 1 then UnsupportedGenericArity else UnsupportedNestedGeneric)
    ensures r.Success? ==> StmtIds(r.value) == [id] && r.value.Field? && r.value.fieldName == fieldName
    ensures r.Success? ==> r.value == if args[0].name == "u8" then Field(Defaulted, "bytes", fieldName, id)
                                      else Field(Repeated, args[0].name, fieldName, id)
  {
    match Singular<TypeRef>(args)
    case None => Failure(UnsupportedGenericArity)
    case Some(Generic(_, _)) => Failure(UnsupportedNestedGeneric)
    case Some(Normal(name)) =>
      if name == "u8" then Success(Field(Defaulted, "bytes", fieldName, id))
      else Success(Field(Repeated, name, fieldName, id))
  }

  /** `HashMap<K, V>`: a plain `map<K, V>` field of the raw key and value names. */
  function LowerMap(fieldName: string, args: seq<TypeRef>, id: nat): (r: Result<Stmt, Panic>)
    ensures r.Success? <==> |args| == 2 && args[0].Normal? && args[1].Normal?
    ensures r.Failure? ==> r.error == (if |args| != 2 then UnsupportedGenericArity else UnsupportedNestedGeneric)
    ensures r.Success? ==> StmtIds(r.value) == [id]
    ensures r.Success? ==> r.value == Field(Plain, "map<" + args[0].name + ", " + args[1].name + ">", fieldName, id)
  {
    match Double<TypeRef>(args)
    case None => Failure(UnsupportedGenericArity)
    case Some((k, v)) =>
      match SimpleType(k)
      case Failure(e) => Failure(e)
      case Success(key) =>
        match SimpleType(v)
        case Failure(e) => Failure(e)
        case Success(value) => Success(Field(Plain, "map<" + key + ", " + value + ">", fieldName, id))
  }

  /** `Option<T>`: a primitive wrapped in a oneof `<snake field name>_value` holding one
      non-nullable field; any other `T` is a plain field whose type text is the generic
      name itself. */
  function LowerOption(fieldName: string, g: string, args: seq<TypeRef>, id: nat): (r: Result<Stmt, Panic>)
    ensures r.Success? <==> |args| == 1 && args[0].Normal?
    ensures r.Failure? ==> r.error == (if |args| != 1 then UnsupportedGenericArity else UnsupportedNestedGeneric)
    ensures r.Success? ==> StmtIds(r.value) == [id]
    ensures r.Success? ==> (r.value.Oneof? <==> args[0].name in PrimitiveNames)
    ensures r.Success? && args[0].name in PrimitiveNames ==>
              r.value == Oneof(Snake(fieldName) + "_value",
                               [Field(Defaulted, TranslateSimpleTypeName(args[0].name).value, fieldName, id)])
    ensures r.Success? && args[0].name !in PrimitiveNames ==> r.value == Field(Plain, g, fieldName, id)
  {
    match Singular<TypeRef>(args)
    case None => Failure(UnsupportedGenericArity)
    case Some(Generic(_, _)) => Failure(UnsupportedNestedGeneric)
    case Some(Normal(name)) =>
      match TranslateSimpleTypeName(name)
      case Some(simple) =>
        assert FieldIds([Field(Defaulted, simple, fieldName, id)]) == [id] by {
          assert [Field(Defaulted, simple, fieldName, id)][..0] == [];
        }
        Success(Oneof(Snake(fieldName) + "_value", [Field(Defaulted, simple, fieldName, id)]))
      case None => Success(Field(Plain, g, fieldName, id))
  }

  /** emit_field: the one statement written for a field, which uses exactly the number
      `id`; it exists exactly for the supported field types, and the panic otherwise
      is the one the type predicts. */
  function LowerField(fieldName: string, ty: TypeRef, id: nat): (r: Result<Stmt, Panic>)
    ensures r.Success? <==> Supported(ty)
    ensures r.Failure? ==> r.error == ExpectedPanic(ty)
    ensures r.Success? ==> StmtIds(r.value) == [id]
  {
    match ty
    case Normal(name) => Success(LowerNormal(fieldName, name, id))
    case Generic(g, args) =>
      if g == "Vec" then LowerVec(fieldName, args, id)
      else if g == "HashMap" then LowerMap(fieldName, args, id)
      else if g == "Option" then LowerOption(fieldName, g, args, id)
      else Failure(UnsupportedGenericType)
  }

  /** `Vec<T>` for any non-generic `T` other than `u8`, primitive or not, is a repeated
      field of the raw Rust name: the element is not translated. */
  lemma VecKeepsRawName(fieldName: string, name: string, id: nat)
    requires name != "u8"
    ensures LowerField(fieldName, Generic("Vec", [Normal(name)]), id) == Success(Field(Repeated, name, fieldName, id))
  {
  }

  /** `Option<T>` for a non-primitive `T` is a plain field whose type text is `Option`. */
  lemma OptionOfOtherIsPlainOption(fieldName: string, name: string, id: nat)
    requires name !in PrimitiveNames
    ensures LowerField(fieldName, Generic("Option", [Normal(name)]), id) == Success(Field(Plain, "Option", fieldName, id))
  {
  }

  /** The statements of a named field list numbered from `start`, or the first panic. */
  function LowerFieldList(fs: seq<(string, TypeRef)>, start: nat): (r: Result<seq<Stmt>, Panic>)
    ensures r.Success? ==> |r.value| == |fs|
  {
    if fs == [] then Success([])
    else
      match LowerFieldList(fs[..|fs| - 1], start)
      case Failure(e) => Failure(e)
      case Success(body) =>
        match LowerField(fs[|fs| - 1].0, fs[|fs| - 1].1, start + |fs| - 1)
        case Failure(e) => Failure(e)
        case Success(s) => Success(body + [s])
  }

  /** A field list lowers exactly when every field type is supported. */
  lemma {:induction false} LowerFieldListSucceedsIff(fs: seq<(string, TypeRef)>, start: nat)
    ensures LowerFieldList(fs, start).Success? <==> forall i | 0 <= i < |fs| :: Supported(fs[i].1)
  {
    if fs != [] {
      var init := fs[..|fs| - 1];
      LowerFieldListSucceedsIff(init, start);
      assert forall i | 0 <= i < |init| :: init[i] == fs[i];
    }
  }

  /** Statement i of a lowered field list is field i lowered with number start + i. */
  lemma {:induction false} LowerFieldListAt(fs: seq<(string, TypeRef)>, start: nat)
    requires LowerFieldList(fs, start).Success?
    ensures |LowerFieldList(fs, start).value| == |fs|
    ensures forall i | 0 <= i < |fs| ::
              LowerField(fs[i].0, fs[i].1, start + i).Success? &&
              LowerFieldList(fs, start).value[i] == LowerField(fs[i].0, fs[i].1, start + i).value
  {
    if fs != [] {
      var init := fs[..|fs| - 1];
      LowerFieldListAt(init, start);
      assert forall i | 0 <= i < |init| :: init[i] == fs[i];
    }
  }

  /** The fields appear in order, one statement each, numbered start, start + 1, ...
      without gaps. */
  lemma LowerFieldListNumbering(fs: seq<(string, TypeRef)>, start: nat)
    requires LowerFieldList(fs, start).Success?
    ensures |LowerFieldList(fs, start).value| == |fs|
    ensures FieldIds(LowerFieldList(fs, start).value) == Iota(start, |fs|)
    ensures forall i | 0 <= i < |fs| ::
              LowerField(fs[i].0, fs[i].1, start + i).Success? &&
              LowerFieldList(fs, start).value[i] == LowerField(fs[i].0, fs[i].1, start + i).value
  {
    LowerFieldListAt(fs, start);
    FieldIdsConsecutive(LowerFieldList(fs, start).value, start);
  }

  /** emit_fields: a message with the named fields numbered from 1; tuple fields panic. */
  function LowerFields(name: string, fields: Fields): (r: Result<Stmt, Panic>)
    ensures fields.Tuple? ==> r == Failure(UnsupportedTupleFields)
    ensures r.Success? ==> r.value.Message? && r.value.name == name
  {
    match fields
    case Tuple(_) => Failure(UnsupportedTupleFields)
    case Struct(fs) =>
      match LowerFieldList(fs, 1)
      case Failure(e) => Failure(e)
      case Success(body) => Success(Message(name, body))
  }

  /** A struct's message numbers its k fields 1..k, in declaration order. */
  lemma MessageNumbering(name: string, fs: seq<(string, TypeRef)>)
    ensures LowerFields(name, Fields.Struct(fs)).Success? <==> forall i | 0 <= i < |fs| :: Supported(fs[i].1)
    ensures LowerFields(name, Fields.Struct(fs)).Success? ==>
              FieldIds(LowerFields(name, Fields.Struct(fs)).value.body) == Iota(1, |fs|)
    ensures LowerFields(name, Fields.Struct(fs)).Success? ==>
              |LowerFields(name, Fields.Struct(fs)).value.body| == |fs| &&
              forall i | 0 <= i < |fs| ::
                LowerField(fs[i].0, fs[i].1, 1 + i).Success? &&
                LowerFields(name, Fields.Struct(fs)).value.body[i] == LowerField(fs[i].0, fs[i].1, 1 + i).value
  {
    LowerFieldListSucceedsIff(fs, 1);
    if LowerFieldList(fs, 1).Success? {
      LowerFieldListNumbering(fs, 1);
    }
  }

  /** One variant inside the union's oneof: the single field itself, or a plain
      field referring to the type `<union><variant>`. */
  function LowerVariant(unionName: string, v: (string, Fields), id: nat): (r: Result<Stmt, Panic>)
    ensures r.Success? ==> StmtIds(r.value) == [id]
    ensures Singleton(v.1).Some? ==> r == LowerField(v.0, Singleton(v.1).value, id)
    ensures Singleton(v.1).None? ==> r == Success(Field(Plain, unionName + v.0, v.0, id))
  {
    match Singleton(v.1)
    case Some(ty) => LowerField(v.0, ty, id)
    case None => Success(Field(Plain, unionName + v.0, v.0, id))
  }

  /** A variant that lowers, given that its single field (if any) is supported. */
  predicate VariantSupported(v: (string, Fields))
  {
    Singleton(v.1).None? || Supported(Singleton(v.1).value)
  }

  /** The oneof body for a list of variants numbered from `start`, or the first panic. */
  function LowerVariants(unionName: string, vs: seq<(string, Fields)>, start: nat): (r: Result<seq<Stmt>, Panic>)
    ensures r.Success? ==> |r.value| == |vs|
  {
    if vs == [] then Success([])
    else
      match LowerVariants(unionName, vs[..|vs| - 1], start)
      case Failure(e) => Failure(e)
      case Success(body) =>
        match LowerVariant(unionName, vs[|vs| - 1], start + |vs| - 1)
        case Failure(e) => Failure(e)
        case Success(s) => Success(body + [s])
  }

  /** The oneof of a union lowers exactly when every variant does. */
  lemma {:induction false} LowerVariantsSucceedsIff(unionName: string, vs: seq<(string, Fields)>, start: nat)
    ensures LowerVariants(unionName, vs, start).Success? <==> forall i | 0 <= i < |vs| :: VariantSupported(vs[i])
  {
    if vs != [] {
      var init := vs[..|vs| - 1];
      LowerVariantsSucceedsIff(unionName, init, start);
      assert forall i | 0 <= i < |init| :: init[i] == vs[i];
    }
  }

  /** Oneof field i is variant i lowered with number start + i. */
  lemma {:induction false} LowerVariantsAt(unionName: string, vs: seq<(string, Fields)>, start: nat)
    requires LowerVariants(unionName, vs, start).Success?
    ensures |LowerVariants(unionName, vs, start).value| == |vs|
    ensures forall i | 0 <= i < |vs| ::
              LowerVariant(unionName, vs[i], start + i).Success? &&
              LowerVariants(unionName, vs, start).value[i] == LowerVariant(unionName, vs[i], start + i).value
  {
    if vs != [] {
      var init := vs[..|vs| - 1];
      LowerVariantsAt(unionName, init, start);
      assert forall i | 0 <= i < |init| :: init[i] == vs[i];
    }
  }

  /** The oneof of a union holds one field per variant, in variant order, numbered
      start.. without gaps; a variant without exactly one field becomes a field of type
      `<union><variant>` named after the variant. */
  lemma LowerVariantsNumbering(unionName: string, vs: seq<(string, Fields)>, start: nat)
    requires LowerVariants(unionName, vs, start).Success?
    ensures |LowerVariants(unionName, vs, start).value| == |vs|
    ensures FieldIds(LowerVariants(unionName, vs, start).value) == Iota(start, |vs|)
    ensures forall i | 0 <= i < |vs| ::
              LowerVariant(unionName, vs[i], start + i).Success? &&
              LowerVariants(unionName, vs, start).value[i] == LowerVariant(unionName, vs[i], start + i).value
  {
    LowerVariantsAt(unionName, vs, start);
    FieldIdsConsecutive(LowerVariants(unionName, vs, start).value, start);
  }

  /** A variant without exactly one field becomes, at its position in the oneof, a plain
      field named after the variant whose type is `<union><variant>`. */
  lemma {:induction false} VariantReference(unionName: string, vs: seq<(string, Fields)>, start: nat, i: nat)
    requires LowerVariants(unionName, vs, start).Success?
    requires i < |vs| && Singleton(vs[i].1).None?
    ensures |LowerVariants(unionName, vs, start).value| == |vs|
    ensures LowerVariants(unionName, vs, start).value[i] == Field(Plain, unionName + vs[i].0, vs[i].0, start + i)
  {
    LowerVariantsNumbering(unionName, vs, start);
    var init := vs[..|vs| - 1];
    var body := LowerVariants(unionName, init, start).value;
    var s := LowerVariant(unionName, vs[|vs| - 1], start + |vs| - 1).value;
    assert LowerVariants(unionName, vs, start).value == body + [s];
    if i < |vs| - 1 {
      VariantReference(unionName, init, start, i);
    }
  }

  /** The variants emit_enum defers: those without exactly one field, in order. */
  function Deferred(vs: seq<(string, Fields)>): (r: seq<(string, Fields)>)
    ensures |r| <= |vs|
    ensures forall i | 0 <= i < |r| :: Singleton(r[i].1).None?
  {
    if vs == [] then []
    else Deferred(vs[..|vs| - 1]) + (if Singleton(vs[|vs| - 1].1).None? then [vs[|vs| - 1]] else [])
  }

  /** A variant is deferred exactly when it does not hold exactly one field. */
  lemma {:induction false} DeferredMembers(vs: seq<(string, Fields)>)
    ensures forall v | v in Deferred(vs) :: v in vs && Singleton(v.1).None?
    ensures forall v | v in vs && Singleton(v.1).None? :: v in Deferred(vs)
  {
    if vs != [] {
      DeferredMembers(vs[..|vs| - 1]);
      assert vs == vs[..|vs| - 1] + [vs[|vs| - 1]];
    }
  }

  /** Collecting the deferred variants of a concatenation collects those of each part,
      in order: the variants keep their relative order and each appears once. */
  lemma {:induction false} DeferredAppend(a: seq<(string, Fields)>, b: seq<(string, Fields)>)
    ensures Deferred(a + b) == Deferred(a) + Deferred(b)
    decreases |b|
  {
    if b == [] {
      assert a + b == a;
    } else {
      var b' := b[..|b| - 1];
      assert (a + b)[..|a + b| - 1] == a + b';
      assert (a + b)[|a + b| - 1] == b[|b| - 1];
      DeferredAppend(a, b');
    }
  }

  /** One variant is deferred exactly when it does not hold exactly one field. */
  lemma DeferredOne(v: (string, Fields))
    ensures Deferred([v]) == if Singleton(v.1).None? then [v] else []
  {
    assert [v][..0] == [];
  }

  /** The separate messages of the deferred variants, in order, or the first panic. */
  function LowerDeferred(ds: seq<(string, Fields)>): (r: Result<seq<Stmt>, Panic>)
    ensures r.Success? ==> |r.value| == |ds|
  {
    if ds == [] then Success([])
    else
      match LowerDeferred(ds[..|ds| - 1])
      case Failure(e) => Failure(e)
      case Success(msgs) =>
        match LowerFields(ds[|ds| - 1].0, ds[|ds| - 1].1)
        case Failure(e) => Failure(e)
        case Success(m) => Success(msgs + [m])
  }

  /** The names of a list of variants, in order. */
  function VariantNames(ds: seq<(string, Fields)>): (r: seq<string>)
    ensures |r| == |ds|
  {
    seq(|ds|, i requires 0 <= i < |ds| => ds[i].0)
  }

  /** Each deferred variant becomes one message, named with the bare variant name. */
  lemma {:induction false} LowerDeferredNames(ds: seq<(string, Fields)>)
    ensures LowerDeferred(ds).Success? ==>
              TopNames(LowerDeferred(ds).value) == VariantNames(ds) &&
              forall i | 0 <= i < |ds| :: LowerDeferred(ds).value[i].Message?
    ensures (exists i | 0 <= i < |ds| :: ds[i].1.Tuple?) ==> LowerDeferred(ds).Failure?
    ensures LowerDeferred(ds).Success? ==>
              forall i | 0 <= i < |ds| ::
                LowerFields(ds[i].0, ds[i].1).Success? &&
                LowerDeferred(ds).value[i] == LowerFields(ds[i].0, ds[i].1).value
  {
    if ds != [] {
      var init := ds[..|ds| - 1];
      LowerDeferredNames(init);
      assert forall i | 0 <= i < |init| :: init[i] == ds[i];
      var r := LowerDeferred(ds);
      if r.Success? {
        var msgs := LowerDeferred(init).value;
        var m := LowerFields(ds[|ds| - 1].0, ds[|ds| - 1].1).value;
        assert r.value == msgs + [m];
        TopNamesAppend(msgs, [m]);
      }
    }
  }

  /** emit_enum: the union's message holding one oneof, then the deferred variants' messages. */
  function LowerEnum(name: string, vs: seq<(string, Fields)>): (r: Result<seq<Stmt>, Panic>)
    ensures r.Success? ==> |r.value| >= 1 && r.value[0].Message? && r.value[0].name == name
  {
    match LowerVariants(name, vs, 1)
    case Failure(e) => Failure(e)
    case Success(body) =>
      match LowerDeferred(Deferred(vs))
      case Failure(e) => Failure(e)
      case Success(msgs) => Success([Message(name, [Oneof(Snake(name), body)])] + msgs)
  }

  /** A union lowers to its own message, whose single oneof is named after the
      snake_case union name and numbers the k variants 1..k, followed by one message
      per deferred variant in variant order, named with the bare variant name. */
  lemma EnumShape(name: string, vs: seq<(string, Fields)>)
    requires LowerEnum(name, vs).Success?
    ensures var r := LowerEnum(name, vs).value;
            |r[0].body| == 1 && r[0].body[0].Oneof? && r[0].body[0].name == Snake(name) &&
            FieldIds(r[0].body[0].body) == Iota(1, |vs|)
    ensures var r := LowerEnum(name, vs).value;
            |r[0].body[0].body| == |vs| &&
            forall i | 0 <= i < |vs| ::
              LowerVariant(name, vs[i], 1 + i).Success? &&
              r[0].body[0].body[i] == LowerVariant(name, vs[i], 1 + i).value
    ensures var r := LowerEnum(name, vs).value;
            TopNames(r[1..]) == VariantNames(Deferred(vs))
    ensures var r := LowerEnum(name, vs).value;
            |r| == 1 + |Deferred(vs)| &&
            forall j | 0 <= j < |Deferred(vs)| ::
              LowerFields(Deferred(vs)[j].0, Deferred(vs)[j].1).Success? &&
              r[1 + j] == LowerFields(Deferred(vs)[j].0, Deferred(vs)[j].1).value
  {
    var body := LowerVariants(name, vs, 1).value;
    var msgs := LowerDeferred(Deferred(vs)).value;
    var r := LowerEnum(name, vs).value;
    assert r == [Message(name, [Oneof(Snake(name), body)])] + msgs;
    LowerVariantsNumbering(name, vs, 1);
    LowerDeferredNames(Deferred(vs));
    assert r[1..] == msgs;
    EnumOneofAt(name, vs);
    EnumDeferredAt(name, vs);
  }

  /** Oneof field i of a union is variant i lowered with number 1 + i. */
  lemma EnumOneofAt(name: string, vs: seq<(string, Fields)>)
    requires LowerEnum(name, vs).Success?
    ensures var r := LowerEnum(name, vs).value;
            |r[0].body| == 1 && r[0].body[0].Oneof? && |r[0].body[0].body| == |vs| &&
            forall i | 0 <= i < |vs| ::
              LowerVariant(name, vs[i], 1 + i).Success? &&
              r[0].body[0].body[i] == LowerVariant(name, vs[i], 1 + i).value
  {
    var body := LowerVariants(name, vs, 1).value;
    assert LowerEnum(name, vs).value[0] == Message(name, [Oneof(Snake(name), body)]);
    LowerVariantsAt(name, vs, 1);
  }

  /** Top-level message 1 + j of a union is deferred variant j's message. */
  lemma EnumDeferredAt(name: string, vs: seq<(string, Fields)>)
    requires LowerEnum(name, vs).Success?
    ensures var r := LowerEnum(name, vs).value;
            |r| == 1 + |Deferred(vs)| &&
            forall j | 0 <= j < |Deferred(vs)| ::
              LowerFields(Deferred(vs)[j].0, Deferred(vs)[j].1).Success? &&
              r[1 + j] == LowerFields(Deferred(vs)[j].0, Deferred(vs)[j].1).value
  {
    var ds := Deferred(vs);
    var msgs := LowerDeferred(ds).value;
    var r := LowerEnum(name, vs).value;
    assert r == [r[0]] + msgs;
    LowerDeferredNames(ds);
    forall j | 0 <= j < |ds|
      ensures LowerFields(ds[j].0, ds[j].1).Success? && r[1 + j] == LowerFields(ds[j].0, ds[j].1).value
    {
      assert r[1 + j] == msgs[j];
    }
  }

  /** lowering a declared type: a struct's message, or a union's messages. */
  function LowerType(name: string, ty: Ty): (r: Result<seq<Stmt>, Panic>)
    ensures r.Success? ==> |r.value| >= 1 && r.value[0].Message? && r.value[0].name == name
  {
    match ty
    case Struct(s) =>
      (match LowerFields(name, s.fields)
       case Failure(e) => Failure(e)
       case Success(m) => Success([m]))
    case Enum(e) => LowerEnum(name, e.variants)
  }

  /** emit_proto: every declared type in insertion order, or the first panic. */
  function LowerProto(types: map<string, Ty>, order: seq<string>): (r: Result<seq<Stmt>, Panic>)
    requires forall n | n in order :: n in types
    ensures r.Success? ==> |r.value| >= |order|
  {
    if order == [] then Success([])
    else
      match LowerProto(types, order[..|order| - 1])
      case Failure(e) => Failure(e)
      case Success(out) =>
        match LowerType(order[|order| - 1], types[order[|order| - 1]])
        case Failure(e) => Failure(e)
        case Success(ms) => Success(out + ms)
  }

  /** The top-level messages a declared type should produce: its own, then one per
      deferred variant of a union. */
  function DeclaredMessages(name: string, ty: Ty): seq<string>
  {
    [name] + match ty
             case Struct(_) => []
             case Enum(e) => VariantNames(Deferred(e.variants))
  }

  /** The expected top-level message names of a module, type after type in insertion order. */
  function ExpectedMessages(types: map<string, Ty>, order: seq<string>): seq<string>
    requires forall n | n in order :: n in types
  {
    if order == [] then []
    else ExpectedMessages(types, order[..|order| - 1])
         + DeclaredMessages(order[|order| - 1], types[order[|order| - 1]])
  }

  /** A type's own output lists exactly the messages it should produce. */
  lemma TypeMessages(name: string, ty: Ty)
    requires LowerType(name, ty).Success?
    ensures TopNames(LowerType(name, ty).value) == DeclaredMessages(name, ty)
  {
    match ty
    case Struct(_) =>
      assert DeclaredMessages(name, ty) == [name];
    case Enum(en) =>
      EnumMessages(name, en.variants);
      assert DeclaredMessages(name, ty) == [name] + VariantNames(Deferred(en.variants));
  }

  lemma EnumMessages(name: string, vs: seq<(string, Fields)>)
    requires LowerEnum(name, vs).Success?
    ensures TopNames(LowerEnum(name, vs).value) == [name] + VariantNames(Deferred(vs))
  {
    var r := LowerEnum(name, vs).value;
    EnumShape(name, vs);
    assert r == [r[0]] + r[1..];
    TopNamesAppend([r[0]], r[1..]);
  }

  /** The module lowers exactly when each declared type does. */
  lemma {:induction false} ProtoSucceedsIff(types: map<string, Ty>, order: seq<string>)
    requires forall n | n in order :: n in types
    ensures LowerProto(types, order).Success? <==>
              forall i | 0 <= i < |order| :: LowerType(order[i], types[order[i]]).Success?
  {
    if order != [] {
      var init := order[..|order| - 1];
      var last := order[|order| - 1];
      ProtoSucceedsIff(types, init);
      ProtoSuccessStep(types, order);
      if LowerProto(types, order).Success? {
        forall i | 0 <= i < |order| ensures LowerType(order[i], types[order[i]]).Success? {
          if i < |init| {
            assert init[i] == order[i];
          }
        }
      } else if LowerProto(types, init).Failure? {
        var j :| 0 <= j < |init| && LowerType(init[j], types[init[j]]).Failure?;
        assert init[j] == order[j];
      } else {
        assert LowerType(order[|order| - 1], types[order[|order| - 1]]).Failure?;
      }
    }
  }

  /** The top-level messages are those of the declared types in insertion order, each
      type's own message followed by its deferred variants' messages. */
  lemma {:induction false} ProtoOrder(types: map<string, Ty>, order: seq<string>)
    requires forall n | n in order :: n in types
    requires LowerProto(types, order).Success?
    ensures TopNames(LowerProto(types, order).value) == ExpectedMessages(types, order)
  {
    if order != [] {
      var init := order[..|order| - 1];
      var last := order[|order| - 1];
      ProtoOrder(types, init);
      var out := LowerProto(types, init).value;
      var ms := LowerType(last, types[last]).value;
      TypeMessages(last, types[last]);
      assert LowerProto(types, order).value == out + ms;
      TopNamesAppend(out, ms);
    }
  }

  // Once a prefix of a list stops at a panic, the whole list stops at the same panic.

  lemma {:induction false} FieldListFailurePersists(fs: seq<(string, TypeRef)>, start: nat, k: nat)
    requires k <= |fs| && LowerFieldList(fs[..k], start).Failure?
    ensures LowerFieldList(fs, start) == LowerFieldList(fs[..k], start)
    decreases |fs| - k
  {
    if k < |fs| {
      assert fs[..k + 1][..k] == fs[..k];
      FieldListFailurePersists(fs, start, k + 1);
    } else {
      assert fs[..k] == fs;
    }
  }

  lemma {:induction false} VariantsFailurePersists(unionName: string, vs: seq<(string, Fields)>, start: nat, k: nat)
    requires k <= |vs| && LowerVariants(unionName, vs[..k], start).Failure?
    ensures LowerVariants(unionName, vs, start) == LowerVariants(unionName, vs[..k], start)
    decreases |vs| - k
  {
    if k < |vs| {
      assert vs[..k + 1][..k] == vs[..k];
      VariantsFailurePersists(unionName, vs, start, k + 1);
    } else {
      assert vs[..k] == vs;
    }
  }

  lemma {:induction false} DeferredFailurePersists(ds: seq<(string, Fields)>, k: nat)
    requires k <= |ds| && LowerDeferred(ds[..k]).Failure?
    ensures LowerDeferred(ds) == LowerDeferred(ds[..k])
    decreases |ds| - k
  {
    if k < |ds| {
      assert ds[..k + 1][..k] == ds[..k];
      DeferredFailurePersists(ds, k + 1);
    } else {
      assert ds[..k] == ds;
    }
  }

  lemma {:induction false} ProtoFailurePersists(types: map<string, Ty>, order: seq<string>, k: nat)
    requires forall n | n in order :: n in types
    requires k <= |order| && LowerProto(types, order[..k]).Failure?
    ensures LowerProto(types, order) == LowerProto(types, order[..k])
    decreases |order| - k
  {
    if k < |order| {
      assert order[..k + 1][..k] == order[..k];
      ProtoFailurePersists(types, order, k + 1);
    } else {
      assert order[..k] == order;
    }
  }

  // One more element of a list that lowers: the lowering of the longer prefix.

  lemma FieldListStep(fs: seq<(string, TypeRef)>, start: nat, i: nat)
    requires i < |fs| && LowerFieldList(fs[..i], start).Success?
    requires LowerField(fs[i].0, fs[i].1, start + i).Success?
    ensures LowerFieldList(fs[..i + 1], start) ==
              Success(LowerFieldList(fs[..i], start).value + [LowerField(fs[i].0, fs[i].1, start + i).value])
  {
    assert fs[..i + 1][..i] == fs[..i];
  }

  lemma VariantsStep(unionName: string, vs: seq<(string, Fields)>, start: nat, i: nat)
    requires i < |vs| && LowerVariants(unionName, vs[..i], start).Success?
    requires LowerVariant(unionName, vs[i], start + i).Success?
    ensures LowerVariants(unionName, vs[..i + 1], start) ==
              Success(LowerVariants(unionName, vs[..i], start).value + [LowerVariant(unionName, vs[i], start + i).value])
    ensures Deferred(vs[..i + 1]) == Deferred(vs[..i]) + (if Singleton(vs[i].1).None? then [vs[i]] else [])
  {
    assert vs[..i + 1][..i] == vs[..i];
  }

  lemma DeferredStep(ds: seq<(string, Fields)>, i: nat)
    requires i < |ds| && LowerDeferred(ds[..i]).Success?
    requires LowerFields(ds[i].0, ds[i].1).Success?
    ensures LowerDeferred(ds[..i + 1]) ==
              Success(LowerDeferred(ds[..i]).value + [LowerFields(ds[i].0, ds[i].1).value])
  {
    assert ds[..i + 1][..i] == ds[..i];
  }

  // The module lowers exactly when all but its last type do and its last type does.
  lemma ProtoSuccessStep(types: map<string, Ty>, order: seq<string>)
    requires forall n | n in order :: n in types
    requires order != []
    ensures LowerProto(types, order).Success? <==>
              LowerProto(types, order[..|order| - 1]).Success? &&
              LowerType(order[|order| - 1], types[order[|order| - 1]]).Success?
  {
  }

  lemma ProtoStep(types: map<string, Ty>, order: seq<string>, i: nat)
    requires forall n | n in order :: n in types
    requires i < |order| && LowerProto(types, order[..i]).Success?
    requires LowerType(order[i], types[order[i]]).Success?
    ensures LowerProto(types, order[..i + 1]) ==
              Success(LowerProto(types, order[..i]).value + LowerType(order[i], types[order[i]]).value)
  {
    assert order[..i + 1][..i] == order[..i];
  }
}
