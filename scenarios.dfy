/** Worked translations of small declarations, end to end: the statements the
    translator writes for them and, for a struct, the exact protobuf text. */
module Scenarios {
  import opened Wrappers
  import opened Ir
  import opened Schema
  import opened Lowering

  /** A struct with a primitive field and a named non-primitive field: the primitive is
      translated and written plainly, the other keeps its Rust name and is non-nullable. */
  lemma RecordScenario()
    ensures var fields := Fields.Struct([("id", Normal("u32")), ("name", Normal("String"))]);
            LowerType("Rec", Ty.Struct(StructTy(fields)))
            == Success([Message("Rec", [Field(Plain, "uint32", "id", 1), Field(Defaulted, "String", "name", 2)])])
  {
    var fs := [("id", Normal("u32")), ("name", Normal("String"))];
    assert Primitives.TranslateSimpleTypeName("u32") == Some("uint32");
    assert Primitives.TranslateSimpleTypeName("String") == None;
    var a, b := Field(Plain, "uint32", "id", 1), Field(Defaulted, "String", "name", 2);
    assert LowerField("id", Normal("u32"), 1) == Success(a);
    assert LowerField("name", Normal("String"), 2) == Success(b);
    assert fs[..0] == [];
    FieldListStep(fs, 1, 0);
    assert [] + [a] == [a];
    assert LowerFieldList(fs[..1], 1) == Success([a]);
    FieldListStep(fs, 1, 1);
    assert [a] + [b] == [a, b];
    assert fs[..2] == fs;
    assert LowerFieldList(fs, 1) == Success([a, b]);
    assert LowerFields("Rec", Fields.Struct(fs)) == Success(Message("Rec", [a, b]));
  }

  /** The primitive field's line, one level deep. */
  lemma IdLine()
    ensures Render(1, Field(Plain, "uint32", "id", 1)) == "  uint32 id = 1;\n"
  {
    assert Decimal(1) == "1";
    assert Spaces(1) == "  ";
    assert "  " + ("" + ("uint32" + " " + "id" + " = " + "1" + "" + ";" + "\n")) == "  uint32 id = 1;\n";
  }

  /** The non-primitive field's line, one level deep, with its non-nullable option. */
  lemma NameLine()
    ensures Render(1, Field(Defaulted, "String", "name", 2)) == "  String name = 2" + NonNullable + ";\n"
  {
    assert Decimal(2) == "2";
    assert Spaces(1) == "  ";
    assert "  " + ("" + ("String" + " " + "name" + " = " + "2" + NonNullable + ";" + "\n"))
           == "  String name = 2" + NonNullable + ";\n";
  }

  /** The text of that struct's message at the top level, line by line. */
  lemma RecordText()
    ensures RenderSeq(0, [Message("Rec", [Field(Plain, "uint32", "id", 1), Field(Defaulted, "String", "name", 2)])])
            == "message Rec {\n" + "  uint32 id = 1;\n" + ("  String name = 2" + NonNullable + ";\n") + "}\n"
  {
    var a, b := Field(Plain, "uint32", "id", 1), Field(Defaulted, "String", "name", 2);
    IdLine();
    NameLine();
    assert [a, b][..1] == [a];
    RenderSeqOne(1, a);
    assert RenderSeq(1, [a, b]) == Render(1, a) + Render(1, b);
    RenderSeqOne(0, Message("Rec", [a, b]));
    assert Open(0, "message ", "Rec") == "message Rec {\n";
    assert Close(0) == "}\n";
  }

  /** The oneof body of that union: the reference to `ChoiceEmpty`, then the `i32` field. */
  lemma ChoiceOneof()
    ensures var vs := [("Empty", Fields.Struct([])), ("Value", Tuple([Normal("i32")]))];
            LowerVariants("Choice", vs, 1)
            == Success([Field(Plain, "ChoiceEmpty", "Empty", 1), Field(Plain, "int32", "Value", 2)])
  {
    var vs := [("Empty", Fields.Struct([])), ("Value", Tuple([Normal("i32")]))];
    var ref := Field(Plain, "ChoiceEmpty", "Empty", 1);
    var value := Field(Plain, "int32", "Value", 2);
    assert "Choice" + "Empty" == "ChoiceEmpty";
    assert LowerVariant("Choice", vs[0], 1) == Success(ref);
    assert Primitives.TranslateSimpleTypeName("i32") == Some("int32");
    assert LowerVariant("Choice", vs[1], 2) == Success(value);
    assert vs[..0] == [];
    VariantsStep("Choice", vs, 1, 0);
    assert [] + [ref] == [ref];
    assert LowerVariants("Choice", vs[..1], 1) == Success([ref]);
    VariantsStep("Choice", vs, 1, 1);
    assert vs[..2] == vs;
    assert [ref] + [value] == [ref, value];
  }

  /** A union with an empty record variant and a one-field tuple variant: the tuple's
      field is written in the oneof under the variant's own name, the empty variant is
      referred to as `<union><variant>` and then written as a message named `Empty`. */
  lemma UnionScenario()
    ensures var vs := [("Empty", Fields.Struct([])), ("Value", Tuple([Normal("i32")]))];
            LowerType("Choice", Ty.Enum(EnumTy(vs)))
            == Success([Message("Choice", [Oneof("choice", [Field(Plain, "ChoiceEmpty", "Empty", 1),
                                                              Field(Plain, "int32", "Value", 2)])]),
                        Message("Empty", [])])
  {
    var vs := [("Empty", Fields.Struct([])), ("Value", Tuple([Normal("i32")]))];
    var empty := ("Empty", Fields.Struct([]));
    assert vs[..1] == [empty];
    assert vs[..1][..0] == [];
    assert Deferred(vs) == [empty] by {
      assert Deferred(vs[..1]) == [empty];
    }
    assert Naming.Snake("Choice") == "choice" by {
      assert "Choice" == ['C'] + "hoice";
      Naming.SnakeOfCapitalized('C', "hoice");
    }
    ChoiceOneof();
    var ref := Field(Plain, "ChoiceEmpty", "Empty", 1);
    var value := Field(Plain, "int32", "Value", 2);
    assert LowerFields("Empty", Fields.Struct([])) == Success(Message("Empty", []));
    assert [empty][..0] == [];
    assert [] + [Message("Empty", [])] == [Message("Empty", [])];
    assert LowerDeferred([empty]) == Success([Message("Empty", [])]);
    var union := Message("Choice", [Oneof("choice", [ref, value])]);
    assert LowerEnum("Choice", vs) == Success([union] + [Message("Empty", [])]);
    assert [union] + [Message("Empty", [])] == [union, Message("Empty", [])];
  }

  /** A `Vec<u8>` field is one non-nullable `bytes` field, not a repeated one. */
  lemma BytesScenario()
    ensures LowerField("data", Generic("Vec", [Normal("u8")]), 3) == Success(Field(Defaulted, "bytes", "data", 3))
  {
  }

  /** An `Option<u32>` field is a oneof of its own around one non-nullable `uint32` field. */
  lemma OptionalScenario()
    ensures LowerField("limit", Generic("Option", [Normal("u32")]), 4)
            == Success(Oneof("limit_value", [Field(Defaulted, "uint32", "limit", 4)]))
  {
    assert Primitives.TranslateSimpleTypeName("u32") == Some("uint32");
    Naming.SnakeOfLowerIsIdentity("limit");
    assert Naming.Snake("limit") + "_value" == "limit_value";
    assert LowerOption("limit", "Option", [Normal("u32")], 4)
           == Success(Oneof("limit_value", [Field(Defaulted, "uint32", "limit", 4)]));
  }

  /** A `HashMap<String, u32>` field is a plain map field over the raw Rust names. */
  lemma MapScenario()
    ensures LowerField("counts", Generic("HashMap", [Normal("String"), Normal("u32")]), 5)
            == Success(Field(Plain, "map<String, u32>", "counts", 5))
  {
    assert "map<" + "String" + ", " + "u32" + ">" == "map<String, u32>";
  }

  /** A `Vec<Vec<u8>>` field stops the translation at the nested container. */
  lemma NestedVecScenario()
    ensures LowerField("rows", Generic("Vec", [Generic("Vec", [Normal("u8")])]), 1)
            == Failure(UnsupportedNestedGeneric)
  {
  }
}
