/** Emitter (src/main.rs:152-235): an indentation-aware text writer. Its buffer only
    grows; each field statement consumes the caller's running field number. */
module Emit {
  import opened Schema

  class Emitter {
    var buf: string
    var atLineStart: bool
    var indent: nat

    constructor ()
      ensures buf == "" && atLineStart && indent == 0
    {
      buf := "";
      atLineStart := true;
      indent := 0;
    }

    /** The indentation the next text gets: the current level at line start, nothing otherwise. */
    function Pad(): string
      reads this
    {
      if atLineStart then Spaces(indent) else ""
    }

    /** _output, without its echo to standard output. */
    method Output(text: string)
      modifies this`buf
      ensures buf == old(buf) + text
    {
      buf := buf + text;
    }

    /** text: indentation first when at line start, then the text itself. */
    method Text(text: string)
      modifies this`buf, this`atLineStart
      ensures buf == old(buf) + old(Pad()) + text
      ensures !old(atLineStart) ==> buf == old(buf) + text
      ensures !atLineStart
    {
      if atLineStart {
        var i := 0;
        while i < indent
          invariant 0 <= i <= indent
          invariant buf == old(buf) + Spaces(i)
        {
          Output("  ");
          i := i + 1;
        }
      }
      atLineStart := false;
      Output(text);
    }

    /** line: a newline, after which the next text is indented. */
    method Line()
      modifies this`buf, this`atLineStart
      ensures buf == old(buf) + old(Pad()) + "\n"
      ensures !old(atLineStart) ==> buf == old(buf) + "\n"
      ensures atLineStart
    {
      Text("\n");
      atLineStart := true;
    }

    /** begin_message: open a `message` block one level deeper. */
    method BeginMessage(name: string)
      modifies this
      ensures buf == old(buf) + (old(Pad()) + Header("message ", name))
      ensures atLineStart && indent == old(indent) + 1
    {
      ghost var start := buf + Pad();
      Text("message ");
      Text(name);
      Assoc(start, "message ", name);
      Text(" {");
      Assoc(start, "message " + name, " {");
      indent := indent + 1;
      Line();
      Assoc(start, "message " + name + " {", "\n");
      Assoc(old(buf), old(Pad()), Header("message ", name));
    }

    /** begin_oneof: open a `oneof` block one level deeper. */
    method BeginOneof(name: string)
      modifies this
      ensures buf == old(buf) + (old(Pad()) + Header("oneof ", name))
      ensures atLineStart && indent == old(indent) + 1
    {
      ghost var start := buf + Pad();
      Text("oneof ");
      Text(name);
      Assoc(start, "oneof ", name);
      Text(" {");
      Assoc(start, "oneof " + name, " {");
      indent := indent + 1;
      Line();
      Assoc(start, "oneof " + name + " {", "\n");
      Assoc(old(buf), old(Pad()), Header("oneof ", name));
    }

    /** repeated_field: `repeated <ty> <name> = <id>;`. */
    method RepeatedField(name: string, ty: string, id: nat) returns (nextId: nat)
      modifies this`buf, this`atLineStart
      ensures buf == old(buf) + (old(Pad()) + FieldLine(Repeated, ty, name, id))
      ensures atLineStart && nextId == id + 1
    {
      ghost var buf0, pad0 := buf, Pad();
      Text("repeated ");
      ghost var buf1 := buf;
      nextId := PlainField(name, ty, id);
      ghost var s := Statement(ty, name, id, false);
      assert buf == buf1 + s;
      Assoc(buf0 + pad0, "repeated ", s);
      Assoc(buf0, pad0, "repeated " + s);
    }

    /** plain_field: `<ty> <name> = <id>;`. */
    method PlainField(name: string, ty: string, id: nat) returns (nextId: nat)
      modifies this`buf, this`atLineStart
      ensures buf == old(buf) + (old(Pad()) + FieldLine(Plain, ty, name, id))
      ensures atLineStart && nextId == id + 1
    {
      nextId := FieldWithAnnotations(name, ty, id, false);
    }

    /** defaulted_field: a field marked non-nullable. */
    method DefaultedField(name: string, ty: string, id: nat) returns (nextId: nat)
      modifies this`buf, this`atLineStart
      ensures buf == old(buf) + (old(Pad()) + FieldLine(Defaulted, ty, name, id))
      ensures atLineStart && nextId == id + 1
    {
      nextId := FieldWithAnnotations(name, ty, id, true);
    }

    /** field_with_annotations; the annotation callback either writes the
        non-nullable option or nothing, which `annotated` selects. */
    method FieldWithAnnotations(name: string, ty: string, id: nat, annotated: bool) returns (nextId: nat)
      modifies this`buf, this`atLineStart
      ensures buf == old(buf) + (old(Pad()) + Statement(ty, name, id, annotated))
      ensures atLineStart && nextId == id + 1
    {
      ghost var start := buf + Pad();
      Text(ty);
      ghost var acc := ty;
      Text(" ");
      Assoc(start, acc, " ");
      acc := acc + " ";
      Text(name);
      Assoc(start, acc, name);
      acc := acc + name;
      Text(" = ");
      Assoc(start, acc, " = ");
      acc := acc + " = ";
      Text(Decimal(id));
      Assoc(start, acc, Decimal(id));
      acc := acc + Decimal(id);
      if annotated {
        Text(NonNullable);
        Assoc(start, acc, NonNullable);
      } else {
        assert acc + "" == acc;
      }
      acc := acc + (if annotated then NonNullable else "");
      Text(";");
      Assoc(start, acc, ";");
      acc := acc + ";";
      Line();
      Assoc(start, acc, "\n");
      acc := acc + "\n";
      assert buf == start + acc;
      Assoc(old(buf), old(Pad()), acc);
      nextId := id + 1;
    }

    /** end: close the innermost block, one level shallower. */
    method End()
      requires indent > 0
      modifies this
      ensures indent == old(indent) - 1
      ensures buf == old(buf) + ((if old(atLineStart) then Spaces(indent) else "") + Closing)
      ensures atLineStart
    {
      indent := indent - 1;
      Text("}");
      Line();
    }
  }
}
