/** emit_proto, emit_enum, emit_struct, emit_fields and emit_field
    (src/main.rs:237-335, 373-375) as the imperative walks of the source, each proved
    to write exactly the statements the Lowering functions describe, or to stop at
    the panic they predict. Every walk starts and ends at a line start and leaves
    the indentation as it found it. */
module Emission {
  import opened Wrappers
  import opened Ir
  import opened Primitives
  import opened Naming
  import opened Schema
  import opened Emit
  import opened Lowering

  /** The `Normal` branch of emit_field. */
  method EmitNormalField(fieldName: string, name: string, id: nat, e: Emitter) returns (nextId: nat)
    requires e.atLineStart
    modifies e
    ensures nextId == id + 1 && e.indent == old(e.indent) && e.atLineStart
    ensures e.buf == old(e.buf) + Render(old(e.indent), LowerNormal(fieldName, name, id))
  {
    var simple := TranslateSimpleTypeName(name);
    if simple.Some? {
      nextId := e.PlainField(fieldName, simple.value, id);
    } else {
      nextId := e.DefaultedField(fieldName, name, id);
    }
  }

  /** The `Vec` branch of emit_field. */
  method EmitVecField(fieldName: string, args: seq<TypeRef>, id: nat, e: Emitter) returns (outcome: Outcome<Panic>, nextId: nat)
    requires e.atLineStart
    modifies e
    ensures LowerVec(fieldName, args, id).Failure? ==>
              outcome == Fail(LowerVec(fieldName, args, id).error) && unchanged(e)
    ensures LowerVec(fieldName, args, id).Success? ==>
              outcome == Pass && nextId == id + 1 && e.indent == old(e.indent) && e.atLineStart &&
              e.buf == old(e.buf) + Render(old(e.indent), LowerVec(fieldName, args, id).value)
  {
    nextId := id;
    var single := Singular(args);
    if single.None? {
      return Fail(UnsupportedGenericArity), nextId;
    }
    match single.value
    case Normal(name) =>
      assert args == [Normal(name)];
      if name == "u8" {
        assert LowerVec(fieldName, args, id) == Success(Field(Defaulted, "bytes", fieldName, id));
        nextId := e.DefaultedField(fieldName, "bytes", id);
      } else {
        assert LowerVec(fieldName, args, id) == Success(Field(Repeated, name, fieldName, id));
        nextId := e.RepeatedField(fieldName, name, id);
      }
      outcome := Pass;
    case Generic(_, _) =>
      outcome := Fail(UnsupportedNestedGeneric);
  }

  /** The `HashMap` branch of emit_field. */
  method EmitMapField(fieldName: string, args: seq<TypeRef>, id: nat, e: Emitter) returns (outcome: Outcome<Panic>, nextId: nat)
    requires e.atLineStart
    modifies e
    ensures LowerMap(fieldName, args, id).Failure? ==>
              outcome == Fail(LowerMap(fieldName, args, id).error) && unchanged(e)
    ensures LowerMap(fieldName, args, id).Success? ==>
              outcome == Pass && nextId == id + 1 && e.indent == old(e.indent) && e.atLineStart &&
              e.buf == old(e.buf) + Render(old(e.indent), LowerMap(fieldName, args, id).value)
  {
    nextId := id;
    var pair := Double(args);
    if pair.None? {
      return Fail(UnsupportedGenericArity), nextId;
    }
    var key := SimpleType(pair.value.0);
    if key.Failure? {
      return Fail(key.error), nextId;
    }
    var value := SimpleType(pair.value.1);
    if value.Failure? {
      return Fail(value.error), nextId;
    }
    nextId := e.PlainField(fieldName, "map<" + key.value + ", " + value.value + ">", id);
    outcome := Pass;
  }

  /** An optional primitive: a oneof of its own around one non-nullable field. */
  method EmitOptionalPrimitive(fieldName: string, simple: string, id: nat, e: Emitter) returns (nextId: nat)
    requires e.atLineStart
    modifies e
    ensures nextId == id + 1 && e.indent == old(e.indent) && e.atLineStart
    ensures e.buf == old(e.buf) +
              Render(old(e.indent), Oneof(Snake(fieldName) + "_value", [Field(Defaulted, simple, fieldName, id)]))
  {
    ghost var f := Field(Defaulted, simple, fieldName, id);
    var snake := ToUnderscoreCase(fieldName);
    ghost var indent0, buf0 := e.indent, e.buf;
    e.BeginOneof(snake + "_value");
    ghost var buf1 := e.buf;
    assert buf1 == buf0 + (Spaces(indent0) + Header("oneof ", snake + "_value"));
    nextId := e.DefaultedField(fieldName, simple, id);
    ghost var buf2 := e.buf;
    RenderSeqOne(indent0 + 1, f);
    assert buf2 == buf1 + RenderSeq(indent0 + 1, [f]);
    e.End();
    assert e.buf == buf2 + (Spaces(indent0) + Closing);
    BlockText(indent0, Oneof(snake + "_value", [f]), buf0, buf1, buf2, e.buf);
  }

  /** The `Option` branch of emit_field; `g` is the generic name, written as the type
      text of a non-primitive optional field. */
  method EmitOptionField(fieldName: string, g: string, args: seq<TypeRef>, id: nat, e: Emitter)
    returns (outcome: Outcome<Panic>, nextId: nat)
    requires e.atLineStart
    modifies e
    ensures LowerOption(fieldName, g, args, id).Failure? ==>
              outcome == Fail(LowerOption(fieldName, g, args, id).error) && unchanged(e)
    ensures LowerOption(fieldName, g, args, id).Success? ==>
              outcome == Pass && nextId == id + 1 && e.indent == old(e.indent) && e.atLineStart &&
              e.buf == old(e.buf) + Render(old(e.indent), LowerOption(fieldName, g, args, id).value)
  {
    nextId := id;
    var single := Singular(args);
    if single.None? {
      return Fail(UnsupportedGenericArity), nextId;
    }
    match single.value
    case Normal(name) =>
      assert args == [Normal(name)];
      var simple := TranslateSimpleTypeName(name);
      if simple.Some? {
        assert LowerOption(fieldName, g, args, id) ==
                 Success(Oneof(Snake(fieldName) + "_value", [Field(Defaulted, simple.value, fieldName, id)]));
        nextId := EmitOptionalPrimitive(fieldName, simple.value, id, e);
      } else {
        assert LowerOption(fieldName, g, args, id) == Success(Field(Plain, g, fieldName, id));
        nextId := e.PlainField(fieldName, g, id);
      }
      outcome := Pass;
    case Generic(_, _) =>
      outcome := Fail(UnsupportedNestedGeneric);
  }

  /** emit_field: one statement for the field, consuming the number `id`. */
  method EmitField(fieldName: string, ty: TypeRef, id: nat, e: Emitter) returns (outcome: Outcome<Panic>, nextId: nat)
    requires e.atLineStart
    modifies e
    ensures LowerField(fieldName, ty, id).Failure? ==>
              outcome == Fail(LowerField(fieldName, ty, id).error) && unchanged(e)
    ensures LowerField(fieldName, ty, id).Success? ==>
              outcome == Pass && nextId == id + 1 &&
              e.buf == old(e.buf) + Render(old(e.indent), LowerField(fieldName, ty, id).value) &&
              e.indent == old(e.indent) && e.atLineStart
  {
    match ty
    case Normal(name) =>
      nextId := EmitNormalField(fieldName, name, id, e);
      outcome := Pass;
    case Generic(g, args) =>
      if g == "Vec" {
        outcome, nextId := EmitVecField(fieldName, args, id, e);
      } else if g == "HashMap" {
        outcome, nextId := EmitMapField(fieldName, args, id, e);
      } else if g == "Option" {
        outcome, nextId := EmitOptionField(fieldName, g, args, id, e);
      } else {
        outcome, nextId := Fail(UnsupportedGenericType), id;
      }
  }

  /** The loop of emit_fields over named fields: each field in order, numbered from 1. */
  method EmitFieldList(fs: seq<(string, TypeRef)>, e: Emitter) returns (outcome: Outcome<Panic>)
    requires e.atLineStart
    modifies e
    ensures LowerFieldList(fs, 1).Failure? ==> outcome == Fail(LowerFieldList(fs, 1).error)
    ensures LowerFieldList(fs, 1).Success? ==>
              outcome == Pass && e.indent == old(e.indent) && e.atLineStart &&
              e.buf == old(e.buf) + RenderSeq(old(e.indent), LowerFieldList(fs, 1).value)
  {
    ghost var indent0, buf0 := e.indent, e.buf;
    var id := 1;
    var i := 0;
    while i < |fs|
      invariant 0 <= i <= |fs|
      invariant LowerFieldList(fs[..i], 1).Success?
      invariant id == 1 + i
      invariant e.indent == indent0 && e.atLineStart
      invariant e.buf == buf0 + RenderSeq(indent0, LowerFieldList(fs[..i], 1).value)
    {
      var o;
      o, id := EmitField(fs[i].0, fs[i].1, id, e);
      if o.Fail? {
        assert fs[..i + 1][..i] == fs[..i];
        FieldListFailurePersists(fs, 1, i + 1);
        return o;
      }
      FieldListBufferStep(fs, i, indent0, buf0, e.buf);
      i := i + 1;
    }
    assert fs[..i] == fs;
    outcome := Pass;
  }

  /** One more field written extends the message body's text by that field's text. */
  lemma FieldListBufferStep(fs: seq<(string, TypeRef)>, i: nat, indent: nat, buf0: string, buf: string)
    requires i < |fs| && LowerFieldList(fs[..i], 1).Success?
    requires LowerField(fs[i].0, fs[i].1, 1 + i).Success?
    requires buf == buf0 + RenderSeq(indent, LowerFieldList(fs[..i], 1).value)
                   + Render(indent, LowerField(fs[i].0, fs[i].1, 1 + i).value)
    ensures LowerFieldList(fs[..i + 1], 1).Success?
    ensures buf == buf0 + RenderSeq(indent, LowerFieldList(fs[..i + 1], 1).value)
  {
    var body := LowerFieldList(fs[..i], 1).value;
    var s := LowerField(fs[i].0, fs[i].1, 1 + i).value;
    FieldListStep(fs, 1, i);
    RenderSeqSnoc(indent, body, s);
    Assoc(buf0, RenderSeq(indent, body), Render(indent, s));
  }

  /** emit_fields: a message block holding the named fields numbered from 1; tuple
      fields panic once the block is opened. */
  method EmitFields(name: string, fields: Fields, e: Emitter) returns (outcome: Outcome<Panic>)
    requires e.atLineStart
    modifies e
    ensures LowerFields(name, fields).Failure? ==> outcome == Fail(LowerFields(name, fields).error)
    ensures LowerFields(name, fields).Success? ==>
              outcome == Pass && e.indent == old(e.indent) && e.atLineStart &&
              e.buf == old(e.buf) + Render(old(e.indent), LowerFields(name, fields).value)
  {
    ghost var indent0, buf0 := e.indent, e.buf;
    e.BeginMessage(name);
    if fields.Tuple? {
      return Fail(UnsupportedTupleFields);
    }
    ghost var buf1 := e.buf;
    outcome := EmitFieldList(fields.named, e);
    if outcome.Fail? {
      return;
    }
    ghost var buf2 := e.buf;
    e.End();
    MessageBufferStep(name, fields.named, indent0, buf0, buf1, buf2, e.buf);
  }

  /** A message block written piece by piece is the rendering of the struct's message. */
  lemma MessageBufferStep(name: string, fs: seq<(string, TypeRef)>, indent: nat,
                          buf0: string, buf1: string, buf2: string, buf: string)
    requires LowerFieldList(fs, 1).Success?
    requires buf1 == buf0 + (Spaces(indent) + Header("message ", name))
    requires buf2 == buf1 + RenderSeq(indent + 1, LowerFieldList(fs, 1).value)
    requires buf == buf2 + (Spaces(indent) + Closing)
    ensures LowerFields(name, Fields.Struct(fs)).Success?
    ensures buf == buf0 + Render(indent, LowerFields(name, Fields.Struct(fs)).value)
  {
    BlockText(indent, Message(name, LowerFieldList(fs, 1).value), buf0, buf1, buf2, buf);
  }

  /** emit_struct: the struct's fields as one message. */
  method EmitStruct(name: string, item: StructTy, e: Emitter) returns (outcome: Outcome<Panic>)
    requires e.atLineStart
    modifies e
    ensures LowerType(name, Ty.Struct(item)).Failure? ==> outcome == Fail(LowerType(name, Ty.Struct(item)).error)
    ensures LowerType(name, Ty.Struct(item)).Success? ==>
              outcome == Pass && e.indent == old(e.indent) && e.atLineStart &&
              e.buf == old(e.buf) + RenderSeq(old(e.indent), LowerType(name, Ty.Struct(item)).value)
  {
    outcome := EmitFields(name, item.fields, e);
    if outcome.Pass? {
      RenderSeqOne(old(e.indent), LowerFields(name, item.fields).value);
    }
  }

  /** One iteration of emit_enum's first loop: the single field of the variant, or a
      plain field referring to the type `<union><variant>`. */
  method EmitVariant(unionName: string, v: (string, Fields), id: nat, e: Emitter)
    returns (outcome: Outcome<Panic>, nextId: nat)
    requires e.atLineStart
    modifies e
    ensures LowerVariant(unionName, v, id).Failure? ==> outcome == Fail(LowerVariant(unionName, v, id).error)
    ensures LowerVariant(unionName, v, id).Success? ==>
              outcome == Pass && nextId == id + 1 && e.indent == old(e.indent) && e.atLineStart &&
              e.buf == old(e.buf) + Render(old(e.indent), LowerVariant(unionName, v, id).value)
  {
    var (fieldName, fields) := v;
    var single := Singleton(fields);
    if single.Some? {
      outcome, nextId := EmitField(fieldName, single.value, id, e);
    } else {
      nextId := e.PlainField(fieldName, unionName + fieldName, id);
      outcome := Pass;
    }
  }

  /** The first loop of emit_enum: one oneof field per variant, numbered from 1,
      collecting the variants that do not hold exactly one field. */
  method EmitVariants(name: string, vs: seq<(string, Fields)>, e: Emitter)
    returns (outcome: Outcome<Panic>, toAppend: seq<(string, Fields)>)
    requires e.atLineStart
    modifies e
    ensures LowerVariants(name, vs, 1).Failure? ==> outcome == Fail(LowerVariants(name, vs, 1).error)
    ensures LowerVariants(name, vs, 1).Success? ==>
              outcome == Pass && toAppend == Deferred(vs) &&
              e.indent == old(e.indent) && e.atLineStart &&
              e.buf == old(e.buf) + RenderSeq(old(e.indent), LowerVariants(name, vs, 1).value)
  {
    ghost var indent0, buf0 := e.indent, e.buf;
    var id := 1;
    toAppend := [];
    var i := 0;
    while i < |vs|
      invariant 0 <= i <= |vs|
      invariant LowerVariants(name, vs[..i], 1).Success?
      invariant id == 1 + i
      invariant toAppend == Deferred(vs[..i])
      invariant e.indent == indent0 && e.atLineStart
      invariant e.buf == buf0 + RenderSeq(indent0, LowerVariants(name, vs[..i], 1).value)
    {
      var o;
      o, id := EmitVariant(name, vs[i], id, e);
      if o.Fail? {
        assert vs[..i + 1][..i] == vs[..i];
        VariantsFailurePersists(name, vs, 1, i + 1);
        return o, toAppend;
      }
      VariantsBufferStep(name, vs, i, indent0, buf0, e.buf);
      if Singleton(vs[i].1).None? {
        toAppend := toAppend + [vs[i]];
      }
      i := i + 1;
    }
    assert vs[..i] == vs;
    outcome := Pass;
  }

  /** One more variant written extends the oneof body's text by that variant's text. */
  lemma VariantsBufferStep(name: string, vs: seq<(string, Fields)>, i: nat, indent: nat, buf0: string, buf: string)
    requires i < |vs| && LowerVariants(name, vs[..i], 1).Success?
    requires LowerVariant(name, vs[i], 1 + i).Success?
    requires buf == buf0 + RenderSeq(indent, LowerVariants(name, vs[..i], 1).value)
                   + Render(indent, LowerVariant(name, vs[i], 1 + i).value)
    ensures LowerVariants(name, vs[..i + 1], 1).Success?
    ensures Deferred(vs[..i + 1]) == Deferred(vs[..i]) + (if Singleton(vs[i].1).None? then [vs[i]] else [])
    ensures buf == buf0 + RenderSeq(indent, LowerVariants(name, vs[..i + 1], 1).value)
  {
    var body := LowerVariants(name, vs[..i], 1).value;
    var s := LowerVariant(name, vs[i], 1 + i).value;
    VariantsStep(name, vs, 1, i);
    RenderSeqSnoc(indent, body, s);
    Assoc(buf0, RenderSeq(indent, body), Render(indent, s));
  }

  /** One more deferred message written extends the text by that message's text. */
  lemma DeferredBufferStep(ds: seq<(string, Fields)>, j: nat, indent: nat, buf0: string, buf: string)
    requires j < |ds| && LowerDeferred(ds[..j]).Success?
    requires LowerFields(ds[j].0, ds[j].1).Success?
    requires buf == buf0 + RenderSeq(indent, LowerDeferred(ds[..j]).value)
                   + Render(indent, LowerFields(ds[j].0, ds[j].1).value)
    ensures LowerDeferred(ds[..j + 1]).Success?
    ensures buf == buf0 + RenderSeq(indent, LowerDeferred(ds[..j + 1]).value)
  {
    var msgs := LowerDeferred(ds[..j]).value;
    var m := LowerFields(ds[j].0, ds[j].1).value;
    DeferredStep(ds, j);
    RenderSeqSnoc(indent, msgs, m);
    Assoc(buf0, RenderSeq(indent, msgs), Render(indent, m));
  }

  /** The last loop of emit_enum: each deferred variant as a message of its own. */
  method EmitDeferred(ds: seq<(string, Fields)>, e: Emitter) returns (outcome: Outcome<Panic>)
    requires e.atLineStart
    modifies e
    ensures LowerDeferred(ds).Failure? ==> outcome == Fail(LowerDeferred(ds).error)
    ensures LowerDeferred(ds).Success? ==>
              outcome == Pass && e.indent == old(e.indent) && e.atLineStart &&
              e.buf == old(e.buf) + RenderSeq(old(e.indent), LowerDeferred(ds).value)
  {
    ghost var indent0, buf0 := e.indent, e.buf;
    var j := 0;
    while j < |ds|
      invariant 0 <= j <= |ds|
      invariant LowerDeferred(ds[..j]).Success?
      invariant e.indent == indent0 && e.atLineStart
      invariant e.buf == buf0 + RenderSeq(indent0, LowerDeferred(ds[..j]).value)
    {
      var o := EmitFields(ds[j].0, ds[j].1, e);
      if o.Fail? {
        assert ds[..j + 1][..j] == ds[..j];
        DeferredFailurePersists(ds, j + 1);
        return o;
      }
      DeferredBufferStep(ds, j, indent0, buf0, e.buf);
      j := j + 1;
    }
    assert ds[..j] == ds;
    outcome := Pass;
  }

  /** The oneof block of emit_enum: a field per variant, numbered from 1, returning
      the variants to write as messages of their own. */
  method EmitOneof(oneofName: string, unionName: string, vs: seq<(string, Fields)>, e: Emitter)
    returns (outcome: Outcome<Panic>, toAppend: seq<(string, Fields)>)
    requires e.atLineStart
    modifies e
    ensures LowerVariants(unionName, vs, 1).Failure? ==> outcome == Fail(LowerVariants(unionName, vs, 1).error)
    ensures LowerVariants(unionName, vs, 1).Success? ==>
              outcome == Pass && toAppend == Deferred(vs) &&
              e.indent == old(e.indent) && e.atLineStart &&
              e.buf == old(e.buf) + Render(old(e.indent), Oneof(oneofName, LowerVariants(unionName, vs, 1).value))
  {
    ghost var indent0, buf0 := e.indent, e.buf;
    e.BeginOneof(oneofName);
    ghost var buf1 := e.buf;
    assert buf1 == buf0 + (Spaces(indent0) + Header("oneof ", oneofName));
    outcome, toAppend := EmitVariants(unionName, vs, e);
    if outcome.Fail? {
      return;
    }
    ghost var body := LowerVariants(unionName, vs, 1).value;
    ghost var buf2 := e.buf;
    assert buf2 == buf1 + RenderSeq(indent0 + 1, body);
    e.End();
    assert e.buf == buf2 + (Spaces(indent0) + Closing);
    BlockText(indent0, Oneof(oneofName, body), buf0, buf1, buf2, e.buf);
  }

  /** The first part of emit_enum: the union's message holding the oneof block. */
  method EmitUnionMessage(name: string, vs: seq<(string, Fields)>, e: Emitter)
    returns (outcome: Outcome<Panic>, toAppend: seq<(string, Fields)>)
    requires e.atLineStart
    modifies e
    ensures LowerVariants(name, vs, 1).Failure? ==> outcome == Fail(LowerVariants(name, vs, 1).error)
    ensures LowerVariants(name, vs, 1).Success? ==>
              outcome == Pass && toAppend == Deferred(vs) &&
              e.indent == old(e.indent) && e.atLineStart &&
              e.buf == old(e.buf) + Render(old(e.indent), Message(name, [Oneof(Snake(name), LowerVariants(name, vs, 1).value)]))
  {
    ghost var indent0, buf0 := e.indent, e.buf;
    e.BeginMessage(name);
    ghost var buf1 := e.buf;
    var snake := ToUnderscoreCase(name);
    outcome, toAppend := EmitOneof(snake, name, vs, e);
    if outcome.Fail? {
      return;
    }
    ghost var oneof := Oneof(snake, LowerVariants(name, vs, 1).value);
    ghost var buf2 := e.buf;
    e.End();
    RenderSeqOne(indent0 + 1, oneof);
    BlockText(indent0, Message(name, [oneof]), buf0, buf1, buf2, e.buf);
  }

  /** emit_enum: the union's message, then one message per variant that does not hold
      exactly one field, in variant order; a panic stops the output. */
  method EmitEnum(name: string, item: EnumTy, e: Emitter) returns (outcome: Outcome<Panic>)
    requires e.atLineStart
    modifies e
    ensures LowerType(name, Ty.Enum(item)).Failure? ==> outcome == Fail(LowerType(name, Ty.Enum(item)).error)
    ensures LowerType(name, Ty.Enum(item)).Success? ==>
              outcome == Pass && e.indent == old(e.indent) && e.atLineStart &&
              e.buf == old(e.buf) + RenderSeq(old(e.indent), LowerType(name, Ty.Enum(item)).value)
  {
    assert LowerType(name, Ty.Enum(item)) == LowerEnum(name, item.variants);
    ghost var indent0, buf0 := e.indent, e.buf;
    var toAppend;
    outcome, toAppend := EmitUnionMessage(name, item.variants, e);
    if outcome.Fail? {
      return;
    }
    ghost var bufUnion := e.buf;
    outcome := EmitDeferred(toAppend, e);
    if outcome.Fail? {
      return;
    }
    EnumBufferStep(name, item.variants, indent0, buf0, bufUnion, e.buf);
  }

  /** The union's message followed by the deferred messages is the union's rendering. */
  lemma EnumBufferStep(name: string, vs: seq<(string, Fields)>, indent: nat, buf0: string, bufUnion: string, buf: string)
    requires LowerVariants(name, vs, 1).Success? && LowerDeferred(Deferred(vs)).Success?
    requires bufUnion == buf0 + Render(indent, Message(name, [Oneof(Snake(name), LowerVariants(name, vs, 1).value)]))
    requires buf == bufUnion + RenderSeq(indent, LowerDeferred(Deferred(vs)).value)
    ensures LowerEnum(name, vs).Success?
    ensures buf == buf0 + RenderSeq(indent, LowerEnum(name, vs).value)
  {
    var message := Message(name, [Oneof(Snake(name), LowerVariants(name, vs, 1).value)]);
    var msgs := LowerDeferred(Deferred(vs)).value;
    assert LowerEnum(name, vs).value == [message] + msgs;
    RenderSeqAppend(indent, [message], msgs);
    RenderSeqOne(indent, message);
    Assoc(buf0, Render(indent, message), RenderSeq(indent, msgs));
  }

  /** One more declared type written extends the module's text by that type's text. */
  lemma ProtoBufferStep(types: map<string, Ty>, order: seq<string>, i: nat, indent: nat, buf0: string, buf: string)
    requires forall n | n in order :: n in types
    requires i < |order| && LowerProto(types, order[..i]).Success?
    requires LowerType(order[i], types[order[i]]).Success?
    requires buf == buf0 + RenderSeq(indent, LowerProto(types, order[..i]).value)
                   + RenderSeq(indent, LowerType(order[i], types[order[i]]).value)
    ensures LowerProto(types, order[..i + 1]).Success?
    ensures buf == buf0 + RenderSeq(indent, LowerProto(types, order[..i + 1]).value)
  {
    var out := LowerProto(types, order[..i]).value;
    var ms := LowerType(order[i], types[order[i]]).value;
    ProtoStep(types, order, i);
    RenderSeqAppend(indent, out, ms);
    Assoc(buf0, RenderSeq(indent, out), RenderSeq(indent, ms));
  }

  /** The body of emit_proto's loop: a struct or a union, as its kind says. */
  method EmitType(name: string, ty: Ty, e: Emitter) returns (outcome: Outcome<Panic>)
    requires e.atLineStart
    modifies e
    ensures LowerType(name, ty).Failure? ==> outcome == Fail(LowerType(name, ty).error)
    ensures LowerType(name, ty).Success? ==>
              outcome == Pass && e.indent == old(e.indent) && e.atLineStart &&
              e.buf == old(e.buf) + RenderSeq(old(e.indent), LowerType(name, ty).value)
  {
    match ty
    case Struct(item) =>
      outcome := EmitStruct(name, item, e);
    case Enum(item) =>
      outcome := EmitEnum(name, item, e);
  }

  /** emit_proto: every declared type in insertion order, looked up in the type map,
      as its struct or union output; the first panic stops the output. */
  method EmitProto(ir: IrModule, e: Emitter) returns (outcome: Outcome<Panic>)
    requires ir.Valid() && e.atLineStart
    modifies e
    ensures LowerProto(ir.types, ir.typesInOrder).Failure? ==>
              outcome == Fail(LowerProto(ir.types, ir.typesInOrder).error)
    ensures LowerProto(ir.types, ir.typesInOrder).Success? ==>
              outcome == Pass && e.indent == old(e.indent) && e.atLineStart &&
              e.buf == old(e.buf) + RenderSeq(old(e.indent), LowerProto(ir.types, ir.typesInOrder).value)
  {
    ghost var indent0, buf0 := e.indent, e.buf;
    var types, order := ir.types, ir.typesInOrder;
    var i := 0;
    while i < |order|
      invariant 0 <= i <= |order|
      invariant LowerProto(types, order[..i]).Success?
      invariant e.indent == indent0 && e.atLineStart
      invariant e.buf == buf0 + RenderSeq(indent0, LowerProto(types, order[..i]).value)
    {
      var o := EmitType(order[i], types[order[i]], e);
      if o.Fail? {
        assert order[..i + 1][..i] == order[..i];
        ProtoFailurePersists(types, order, i + 1);
        return o;
      }
      ProtoBufferStep(types, order, i, indent0, buf0, e.buf);
      i := i + 1;
    }
    assert order[..i] == order;
    outcome := Pass;
  }
}
