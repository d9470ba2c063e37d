/** The pure helpers of the translator: the primitive-type table and the
    generic-argument accessors used by the lowering (src/main.rs:337-371). */
module Primitives {
  import opened Wrappers

  /** The Rust scalar names that the table recognises. */
  const PrimitiveNames: set<string> :=
    {"u8", "u16", "u32", "u64", "i8", "i16", "i32", "i64", "f32", "f64", "bool"}

  /** The protobuf scalar names the table can produce. */
  const TargetScalars: set<string> := {"uint32", "uint64", "int32", "int64", "float", "double", "bool"}

  /** The table written as a map: an independent reference for TranslateSimpleTypeName. */
  const PrimitiveTable: map<string, string> := map[
    "u8" := "uint32", "u16" := "uint32", "u32" := "uint32", "u64" := "uint64",
    "i8" := "int32", "i16" := "int32", "i32" := "int32", "i64" := "int64",
    "f32" := "float", "f64" := "double", "bool" := "bool"]

  predicate IsUnsigned(name: string) { name in {"u8", "u16", "u32", "u64"} }
  predicate IsSigned(name: string) { name in {"i8", "i16", "i32", "i64"} }

  /** translate_simple_type_name: a primitive Rust name to its protobuf scalar. */
  function TranslateSimpleTypeName(name: string): (r: Option<string>)
    ensures r.Some? <==> name in PrimitiveNames
    ensures r.Some? ==> r.value in TargetScalars
    ensures IsUnsigned(name) ==> r.Some? && r.value[0] == 'u'
    ensures IsSigned(name) ==> r.Some? && r.value[..3] == "int"
    ensures name in {"u64", "i64"} ==> r.Some? && r.value[|r.value| - 2..] == "64"
    ensures name in {"u8", "u16", "u32", "i8", "i16", "i32"} ==> r.Some? && r.value[|r.value| - 2..] == "32"
  {
    if name == "u8" || name == "u16" || name == "u32" then Some("uint32")
    else if name == "u64" then Some("uint64")
    else if name == "i8" || name == "i16" || name == "i32" then Some("int32")
    else if name == "i64" then Some("int64")
    else if name == "f32" then Some("float")
    else if name == "f64" then Some("double")
    else if name == "bool" then Some("bool")
    else None
  }

  /** The function agrees with the table on every name: Some(table entry) for its keys, None elsewhere. */
  lemma TranslateAgreesWithTable(name: string)
    ensures TranslateSimpleTypeName(name) ==
            (if name in PrimitiveTable then Some(PrimitiveTable[name]) else None)
  {
    assert PrimitiveTable.Keys == PrimitiveNames;
  }

  /** Exactly eleven Rust names are recognised. */
  lemma ElevenPrimitives()
    ensures |PrimitiveNames| == 11
  {
    var s := {"u8", "u16", "u32", "u64", "i8", "i16", "i32", "i64", "f32", "f64"};
    assert "bool" !in s;
    var s9 := {"u8", "u16", "u32", "u64", "i8", "i16", "i32", "i64", "f32"};
    assert "f64" !in s9;
    var s8 := {"u8", "u16", "u32", "u64", "i8", "i16", "i32", "i64"};
    assert "f32" !in s8;
    var s7 := {"u8", "u16", "u32", "u64", "i8", "i16", "i32"};
    assert "i64" !in s7;
    var s6 := {"u8", "u16", "u32", "u64", "i8", "i16"};
    assert "i32" !in s6;
    var s5 := {"u8", "u16", "u32", "u64", "i8"};
    assert "i16" !in s5;
    var s4 := {"u8", "u16", "u32", "u64"};
    assert "i8" !in s4;
    var s3 := {"u8", "u16", "u32"};
    assert "u64" !in s3;
    var s2 := {"u8", "u16"};
    assert "u32" !in s2;
    assert "u16" != "u8";
  }

  /** singular: the only element of a one-element argument list. */
  function Singular<T>(args: seq<T>): (r: Option<T>)
    ensures r.Some? <==> |args| == 1
    ensures r.Some? ==> [r.value] == args
  {
    if |args| == 1 then Some(args[0]) else None
  }

  /** double: the two elements of a two-element argument list. */
  function Double<T>(args: seq<T>): (r: Option<(T, T)>)
    ensures r.Some? <==> |args| == 2
    ensures r.Some? ==> [r.value.0, r.value.1] == args
  {
    if |args| == 2 then Some((args[0], args[1])) else None
  }
}
