# rproto core: Rust type declarations to protobuf, modelled in Dafny

The translator reads a Rust file of `struct` and `enum` declarations and writes an
equivalent protobuf schema. Its core is in `src/main.rs`, and it has five parts:

- **The IR** (`ir.dfy`, module `Ir`). It holds `TypeRef`, `Fields`, `StructTy`, `EnumTy`
  and `Ty`. It models `Fields::singleton` and the classification rule of `load_fields`
  over parsed fields given as (optional name, type) pairs. `IrModule` is a class with
  a `map<string, Ty>` and the `seq<string>` insertion order. `add_type` and
  `load_proto` update them in place.
- **The `Emitter`** (`emitter.dfy`, module `Emit`). It is a class with the `buf`,
  `atLineStart` and `indent` fields. Each method states what it appends to `buf` and
  how it leaves the flag and the indentation. The field-statement methods return the
  caller's next field number, which is one more than the number they consumed.
- **The output as a statement tree** (`schema.dfy`, module `Schema`). A `Stmt` is a
  `message` block, a `oneof` block or a field statement. `Render` gives the exact text
  the emitter writes for a statement at a given indentation. `FieldIds` lists the field
  numbers a statement list uses, and `TopNames` lists the top-level block and field
  names.
- **The lowering** (`lowering.dfy`, module `Lowering`). These functions say, for
  each IR shape, which statements `emit_field`, `emit_fields`, `emit_enum` and
  `emit_proto` write. A panic becomes a `Failure` carrying the `Panic` kind. The
  lemmas about them state the numbering, order, deferral and failure properties.
  `emission.dfy` (module `Emission`) holds the imperative walks of the source, loop
  by loop. Each one is proved to append exactly `Render` of the lowering's statements
  to `buf`, or to stop with the panic the lowering predicts.
- **The helpers**: `translate_simple_type_name`, `singular` and `double` are in
  `primitives.dfy`, and `to_underscore_case` is in `naming.dfy`.

`scenarios.dfy` works through small declarations end to end. One of them shows the
exact text written for a struct.

Where the code's behaviour is surprising, the model follows it as written:

- `to_underscore_case` puts an underscore before every upper-case letter after the
  first character. A run of capitals is not kept together: `HTTPServer` becomes
  `h_t_t_p_server`.
- A variant whose fields are not exactly one field is referred to in the oneof by the
  type `<Union><Variant>`. The message written for it, however, carries the bare
  variant name (src/main.rs:261 against src/main.rs:269).
- For `Option<T>` with a non-primitive `T`, the field's type text is the generic name
  `Option`, not `T` (src/main.rs:325).
- The element of `Vec<T>`, and the key and value of `HashMap<K, V>`, are written
  under their raw Rust names. They are not translated through the primitive table.
- `IrModule::add_type` has no duplicate check. Re-adding a name overwrites its map
  entry and lists the name twice, so the type is emitted twice.
- A single-field union variant becomes a oneof field named after the variant, such as
  `Value`. It is numbered by its position among all the variants.

## Model

| member | source | states |
|---|---|---|
| Primitives.TranslateSimpleTypeName | src/main.rs:337-348 | the result is `Some` exactly for the eleven primitive names and is then a protobuf scalar; unsigned names map to `uint…`, signed names to `int…`, and 64-bit names to `…64` while narrower integers map to `…32` |
| Primitives.TranslateAgreesWithTable | src/main.rs:337-348 | the function equals the table u8/u16/u32→uint32, u64→uint64, i8/i16/i32→int32, i64→int64, f32→float, f64→double, bool→bool, and is `None` off the table |
| Primitives.ElevenPrimitives | src/main.rs:339-345 | exactly eleven distinct Rust names are recognised |
| Primitives.Singular | src/main.rs:357-363 | `Some` exactly for a one-element list, holding that element |
| Primitives.Double | src/main.rs:365-371 | `Some` exactly for a two-element list, holding both elements in order |
| Naming.ToUnderscoreCase | src/main.rs:377-390 | the character loop builds exactly the snake_case form `Snake(name)` |
| Naming.SnakeLength | src/main.rs:380-384 | output length = input length + the number of upper-case letters at index 1 or later |
| Naming.SnakeHasNoUpper | src/main.rs:380-387 | the output contains no upper-case ASCII letter |
| Naming.SnakeOfLowerIsIdentity | src/main.rs:385-387 | a name without upper-case letters is returned unchanged |
| Naming.SnakeIdempotent | src/main.rs:377-390 | converting twice gives the same as converting once |
| Naming.SnakeOfCapitalized | src/main.rs:380-384 | a leading capital is lowered with no underscore before it |
| Naming.SnakeSplitsEveryCapital | src/main.rs:380-384 | each capital in a run gets its own underscore: `HTTPServer` → `h_t_t_p_server` |
| Ir.Singleton | src/main.rs:118-135 | `Some(t)` exactly when the container holds one field, tuple or named, and `t` is that field's type |
| Ir.LoadFields | src/main.rs:39-51 | a named container exactly when every field has a name (so no fields gives an empty named container); the field types and names are kept in order |
| Ir.LoadItem | src/main.rs:29-37 | an item loads exactly when it is a struct or enum without generic parameters, keeping its name and kind; the fields go through `LoadFields`, variant by variant in order (load_enum, src/main.rs:82-92); otherwise the item-kind or generics error |
| Ir.LoadAll | src/main.rs:17-27 | on success, one declaration per item; `LoadAllAt` states declaration i is item i loaded, `LoadAllFirstError` that the first rejected item's error is returned |
| Ir.IrModule.constructor | src/main.rs:139-144 | a new module has no types and an empty order |
| Ir.IrModule.AddType | src/main.rs:146-149 | appends the name to the order; the map gets `name := ty` with every other entry unchanged; a re-added name is then listed twice |
| Ir.LoadAllAt | src/main.rs:17-27 | on success, declaration i is item i loaded by `load_struct` / `load_enum`, for every index |
| Ir.LoadAllFirstError | src/main.rs:17-27 | when items before k are accepted and item k is not, loading fails with item k's own error (the first rejected item decides) |
| Ir.LoadAllSucceedsIff | src/main.rs:17-37 | loading succeeds exactly when every item is a struct or enum without generic parameters, giving one declaration per item in item order |
| Ir.LoadProto | src/main.rs:17-27 | the module's order is the item names and its map is the result of inserting them in order; otherwise the first rejected item's error is returned |
| Schema.DecimalRoundTrip | src/main.rs:223 | the field number's numeral has only digits, no leading zero, and reads back as the number |
| Schema.Render | src/main.rs:172-234 | the text a statement writes is never empty and ends at a line end |
| Schema.RenderSeq | src/main.rs:172-234 | the text of a statement list has at least one character per statement |
| Emit.Emitter.constructor | src/main.rs:159-165 | empty buffer, at line start, indentation 0 |
| Emit.Emitter.Output | src/main.rs:167-170 | appends the text to the buffer |
| Emit.Emitter.Text | src/main.rs:172-180 | appends two blanks per indentation level when at line start, then the text; afterwards not at line start |
| Emit.Emitter.Line | src/main.rs:182-185 | appends a newline, indented when at line start; afterwards at line start |
| Emit.Emitter.BeginMessage | src/main.rs:187-193 | appends `message <name> {` and a newline, raises the indentation by one, ends at line start |
| Emit.Emitter.BeginOneof | src/main.rs:195-201 | appends `oneof <name> {` and a newline, raises the indentation by one, ends at line start |
| Emit.Emitter.RepeatedField | src/main.rs:203-206 | appends the indented `repeated <ty> <name> = <id>;` line; the next number is id + 1; indentation unchanged |
| Emit.Emitter.PlainField | src/main.rs:208-210 | appends the indented `<ty> <name> = <id>;` line; the next number is id + 1; indentation unchanged |
| Emit.Emitter.DefaultedField | src/main.rs:212-216 | appends the indented `<ty> <name> = <id> [(gogoproto.nullable)=false];` line; the next number is id + 1 |
| Emit.Emitter.FieldWithAnnotations | src/main.rs:218-228 | appends the statement text with or without the annotation, ends at line start, and the next number is id + 1 |
| Emit.Emitter.End | src/main.rs:230-234 | lowers the indentation by one (it must be positive) and appends `}` and a newline at the new level |
| Lowering.SimpleType | src/main.rs:350-355 | the name of a non-generic argument; a generic argument is the nested-generic panic |
| Lowering.LowerNormal | src/main.rs:289-295 | one field statement numbered `id` under the field name: a primitive is Plain with its translated name, any other name is Defaulted with its own Rust name |
| Lowering.LowerVec | src/main.rs:298-310 | succeeds exactly for one non-generic argument (otherwise the arity or nested panic); `Vec<u8>` is a Defaulted `bytes` field, any other element a Repeated field of the raw element name |
| Lowering.LowerMap | src/main.rs:311-314 | succeeds exactly for two non-generic arguments (otherwise the arity or nested panic); the result is the Plain field `map<K, V>` over the raw key and value names |
| Lowering.LowerOption | src/main.rs:315-330 | succeeds exactly for one non-generic argument (otherwise the arity or nested panic); a primitive gives the `<snake(field)>_value` oneof around one Defaulted translated field, any other type a Plain field whose type text is the generic name |
| Lowering.LowerField | src/main.rs:287-335 | succeeds exactly for the supported shapes, and then consumes exactly the number `id`; otherwise fails with the predicted panic, including any other generic name |
| Lowering.VecKeepsRawName | src/main.rs:304-305 | `Vec<T>` for any non-generic `T` other than `u8`, primitive or not, is a Repeated field of the raw name `T` |
| Lowering.OptionOfOtherIsPlainOption | src/main.rs:324-325 | `Option<T>` for a non-primitive `T` is a Plain field whose type text is `Option` |
| Lowering.LowerFieldList | src/main.rs:279-281 | on success, one statement per field |
| Lowering.LowerFieldListSucceedsIff | src/main.rs:279-281 | a named field list lowers exactly when every field type is supported |
| Lowering.LowerFieldListAt | src/main.rs:279-281 | statement i of a lowered field list is field i lowered with number start + i |
| Lowering.LowerFieldListNumbering | src/main.rs:275-281 | one statement per field: statement i is field i lowered with number start + i, so the numbers run start, start+1, … with no gap |
| Lowering.LowerFields | src/main.rs:273-285 | tuple fields give the tuple panic; on success the result is a message with the given name |
| Lowering.MessageNumbering | src/main.rs:273-285 | a struct's message lowers exactly when all its field types are supported; its statement i is field i lowered with number 1 + i, so the k fields are numbered 1..k |
| Lowering.LowerVariant | src/main.rs:256-262 | a single-field variant is that field lowered under the variant name; any other variant is the Plain field `<Union><Variant> <Variant>`; the number used is `id` |
| Lowering.LowerVariantsSucceedsIff | src/main.rs:255-263 | the oneof lowers exactly when each variant's single field, if it has one, is supported |
| Lowering.LowerVariantsAt | src/main.rs:255-263 | oneof field i is variant i lowered with number start + i |
| Lowering.LowerVariants | src/main.rs:255-263 | on success, one oneof statement per variant |
| Lowering.LowerVariantsNumbering | src/main.rs:252-263 | oneof field i is variant i lowered with number start + i, so the variants appear in order numbered with no gap |
| Lowering.VariantReference | src/main.rs:258-261 | a variant without exactly one field becomes the plain field `<Union><Variant> <Variant>` at its position |
| Lowering.Deferred | src/main.rs:254-259 | the collected variants are no more than the variants and none of them holds exactly one field; order and multiplicity are stated by `DeferredAppend` and `DeferredOne` |
| Lowering.DeferredAppend | src/main.rs:254-259 | the deferred variants of a concatenation are those of the first part followed by those of the second: source order is kept and each variant appears once |
| Lowering.DeferredOne | src/main.rs:254-259 | one variant is deferred (kept once) exactly when it does not hold exactly one field |
| Lowering.DeferredMembers | src/main.rs:256-259 | the deferred variants are exactly those without exactly one field |
| Lowering.LowerDeferred | src/main.rs:268-270 | on success, one message per deferred variant |
| Lowering.LowerDeferredNames | src/main.rs:268-270 | message i is deferred variant i's fields lowered under the bare variant name, in order; a tuple variant among them is a panic |
| Lowering.LowerEnum | src/main.rs:248-271 | the first statement is the union's message |
| Lowering.EnumShape | src/main.rs:248-271 | the union's message holds one oneof named `Snake(union)` whose field i is variant i lowered with number 1 + i, followed by exactly the deferred variants' messages in order |
| Lowering.EnumOneofAt | src/main.rs:252-263 | the union message holds a single oneof whose field i is variant i lowered with number 1 + i |
| Lowering.EnumDeferredAt | src/main.rs:268-270 | top-level message 1 + j of a union is deferred variant j's message, and there is nothing else after the union's own |
| Lowering.LowerType | src/main.rs:241-243 | the first statement of a declared type is a message with its name |
| Lowering.TypeMessages | src/main.rs:241-243 | a type writes its own message, then, for a union, one message per deferred variant |
| Lowering.EnumMessages | src/main.rs:265-270 | a union's top-level names are its own name followed by the deferred variant names |
| Lowering.ProtoSucceedsIff | src/main.rs:237-246 | the module lowers exactly when each declared type does |
| Lowering.LowerProto | src/main.rs:237-246 | on success, at least one top-level message per listed type |
| Lowering.ProtoOrder | src/main.rs:237-246 | the top-level messages follow insertion order, each type's deferred variant messages right after its own |
| Emission.EmitNormalField | src/main.rs:289-295 | appends the rendering of `LowerNormal` and returns id + 1 |
| Emission.EmitVecField | src/main.rs:298-310 | appends the rendering of `LowerVec`, or reports its panic and leaves the emitter unchanged |
| Emission.EmitMapField | src/main.rs:311-314 | appends the rendering of `LowerMap`, or reports its panic and leaves the emitter unchanged |
| Emission.EmitOptionalPrimitive | src/main.rs:319-323 | appends a `oneof <snake(field)>_value` block around one non-nullable field; indentation restored; returns id + 1 |
| Emission.EmitOptionField | src/main.rs:315-330 | appends the rendering of `LowerOption`, or reports its panic and leaves the emitter unchanged |
| Emission.EmitField | src/main.rs:287-335 | appends the rendering of `LowerField`, returns id + 1 and keeps the indentation; on a panic reports it and writes nothing |
| Emission.EmitFieldList | src/main.rs:275-282 | writes the fields in order, numbered from 1, as `LowerFieldList` renders them |
| Emission.EmitFields | src/main.rs:273-285 | writes exactly the message `LowerFields` gives, leaving the indentation as found; tuple fields fail |
| Emission.EmitStruct | src/main.rs:373-375 | writes the struct's message as `LowerType` renders it |
| Emission.EmitVariant | src/main.rs:256-262 | writes the variant's oneof field as `LowerVariant` renders it and returns id + 1 |
| Emission.EmitVariants | src/main.rs:252-263 | writes the variants' fields numbered from 1 and returns exactly the deferred variants |
| Emission.EmitDeferred | src/main.rs:268-270 | writes each deferred variant's message in order, as `LowerDeferred` renders them |
| Emission.EmitOneof | src/main.rs:250-266 | writes the oneof block around the variants' fields, leaving the indentation as found |
| Emission.EmitUnionMessage | src/main.rs:249-266 | writes the union's message holding the `Snake(name)` oneof, leaving the indentation as found |
| Emission.EmitEnum | src/main.rs:248-271 | writes exactly the rendering of `LowerEnum`, or stops with its panic |
| Emission.EmitType | src/main.rs:241-244 | dispatches a struct or a union and writes its rendering |
| Emission.EmitProto | src/main.rs:237-246 | writes every declared type in insertion order, as `LowerProto` renders them; the first panic stops the output |
| Scenarios.RecordScenario | src/main.rs:287-295 | `{id: u32, name: String}` gives `uint32 id = 1` (plain) and a non-nullable `String name = 2` |
| Scenarios.RecordText | src/main.rs:187-234 | the exact text of that struct's message |
| Scenarios.UnionScenario | src/main.rs:248-271 | `enum Choice { Empty {}, Value(i32) }` gives a `choice` oneof with `ChoiceEmpty Empty = 1` and `int32 Value = 2`, then a message `Empty` |
| Scenarios.ChoiceOneof | src/main.rs:255-263 | the oneof of that union is `ChoiceEmpty Empty = 1` then `int32 Value = 2` |
| Scenarios.BytesScenario | src/main.rs:302-303 | `Vec<u8>` is one non-nullable `bytes` field |
| Scenarios.OptionalScenario | src/main.rs:319-323 | `Option<u32>` is a `limit_value` oneof around a non-nullable `uint32` field |
| Scenarios.MapScenario | src/main.rs:311-313 | `HashMap<String, u32>` is the plain field `map<String, u32>`, with raw names |
| Scenarios.NestedVecScenario | src/main.rs:308 | `Vec<Vec<u8>>` stops at the nested-generic panic |

## Left out

- `main` (src/main.rs:4-15): argument handling, reading the file and parsing. The model
  starts from parsed items.
- `type_ref` and the `syn` side of `load_struct`, `load_enum` and `load_fields`
  (src/main.rs:17-92). Parsed items and fields are given as the `Item`,
  `SourceVariant` and `SourceField` datatypes. A type reference is already a `TypeRef`,
  so the `type_ref` panics for qualified paths, multi-segment paths and parenthesised
  arguments are not modelled, nor its panics for a field type that is not a path
  (`&str`, tuples, arrays; src/main.rs:78) or a generic argument that is not a type
  (lifetimes, constants; src/main.rs:71). Generic parameters on an item are only counted.
- The echo to standard output in `_output` (src/main.rs:169). Only the append to
  `buf` is modelled.
- Output written before a panic. A panicking call reports a `Fail` outcome. Emitter
  state is promised only for the paths that do not panic, plus the field-level
  branches that fail before writing anything.
- Unicode case mapping in `to_underscore_case`. Only `'A'..'Z'` count as upper case,
  and lowering adds 32 to the character code.
- `HashMap` internals: the type map is a Dafny `map`. Lookup is modelled as map
  selection, which the module's `Valid` invariant makes total.
- `usize` bounds: the field number and the indentation are `nat`. Overflow, which
  needs more than 2^64 fields, is not modelled. Underflow of `indent` in `end` is a
  precondition, and every caller meets it.
- Emission: every lowering method requires that the emitter is at line start. This
  holds for a new emitter and after every emitter operation the lowering calls
  (`begin_message`, `begin_oneof`, the field methods and `end`), since each of them
  ends with `line()`.
