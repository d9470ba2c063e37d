/** The protobuf text the translator writes, as a tree of statements, and the
    text each statement becomes at a given indentation (src/main.rs:172-234). */
module Schema {

  /** The three field-statement forms: plain_field, repeated_field, defaulted_field. */
  datatype FieldKind = Plain | Repeated | Defaulted

  /** A `message` or `oneof` block with its body, or one field statement. */
  datatype Stmt =
    | Message(name: string, body: seq<Stmt>)
    | Oneof(name: string, body: seq<Stmt>)
    | Field(kind: FieldKind, ty: string, fieldName: string, id: nat)

  const NonNullable: string := " [(gogoproto.nullable)=false]"

  /** Two blanks per indentation level. */
  function Spaces(n: nat): string
  {
    seq(2 * n, _ => ' ')
  }

  function DigitChar(d: nat): char
    requires d < 10
  {
    "0123456789"[d]
  }

  predicate IsNumeral(s: string)
  {
    forall i | 0 <= i < |s| :: '0' <= s[i] <= '9'
  }

  /** The decimal numeral of a number, as `format!("{}", id)` writes it. */
  function Decimal(n: nat): (r: string)
    ensures |r| > 0
  {
    if n < 10 then [DigitChar(n)] else Decimal(n / 10) + [DigitChar(n % 10)]
  }

  /** Reads a decimal numeral back. */
  function ParseDecimal(s: string): nat
    requires IsNumeral(s)
  {
    if s == [] then 0
    else ParseDecimal(s[..|s| - 1]) * 10 + (s[|s| - 1] as int - '0' as int)
  }

  /** The numeral is made of digits only, names the number it was written for, and
      has no leading zero. */
  lemma {:induction false} DecimalRoundTrip(n: nat)
    ensures IsNumeral(Decimal(n))
    ensures ParseDecimal(Decimal(n)) == n
    ensures |Decimal(n)| > 1 ==> Decimal(n)[0] != '0'
  {
    if n >= 10 {
      DecimalRoundTrip(n / 10);
      var s := Decimal(n);
      assert s == Decimal(n / 10) + [DigitChar(n % 10)];
      assert s[..|s| - 1] == Decimal(n / 10);
    }
  }

  /** A field statement after its indentation and optional `repeated ` prefix:
      `<ty> <name> = <id>[ [(gogoproto.nullable)=false]];` and a newline. */
  function Statement(ty: string, fieldName: string, id: nat, annotated: bool): string
  {
    ty + " " + fieldName + " = " + Decimal(id) + (if annotated then NonNullable else "") + ";" + "\n"
  }

  /** The text of a field statement after its indentation. */
  function FieldLine(kind: FieldKind, ty: string, fieldName: string, id: nat): string
  {
    (if kind == Repeated then "repeated " else "") + Statement(ty, fieldName, id, kind == Defaulted)
  }

  /** The opening line of a block after its indentation. */
  function Header(keyword: string, name: string): string
  {
    keyword + name + " {" + "\n"
  }

  /** The closing line of a block after its indentation. */
  const Closing: string := "}" + "\n"

  /** The indented opening line of a block. */
  function Open(indent: nat, keyword: string, name: string): string
  {
    Spaces(indent) + Header(keyword, name)
  }

  /** The indented closing line of a block. */
  function Close(indent: nat): string
  {
    Spaces(indent) + Closing
  }

  lemma Assoc(a: string, b: string, c: string)
    ensures a + (b + c) == (a + b) + c
  {
  }

  /** Appending a block's text piece by piece gives the block's rendering. */
  lemma AppendBlock(buf: string, open: string, body: string, close: string)
    ensures buf + (open + body + close) == buf + open + body + close
  {
    Assoc(buf, open + body, close);
    Assoc(buf, open, body);
  }

  /** The text of one statement written at line start with the given indentation. */
  function Render(indent: nat, s: Stmt): (r: string)
    ensures |r| > 0 && r[|r| - 1] == '\n'
    decreases s
  {
    match s
    case Message(name, body) => Open(indent, "message ", name) + RenderSeq(indent + 1, body) + Close(indent)
    case Oneof(name, body) => Open(indent, "oneof ", name) + RenderSeq(indent + 1, body) + Close(indent)
    case Field(kind, ty, fieldName, id) =>
      Spaces(indent) + FieldLine(kind, ty, fieldName, id)
  }

  /** The text of a statement list, one after the other at the same indentation. */
  function RenderSeq(indent: nat, ss: seq<Stmt>): (r: string)
    ensures |r| >= |ss|
    decreases ss
  {
    if ss == [] then "" else RenderSeq(indent, ss[..|ss| - 1]) + Render(indent, ss[|ss| - 1])
  }

  lemma {:induction false} RenderSeqAppend(indent: nat, a: seq<Stmt>, b: seq<Stmt>)
    ensures RenderSeq(indent, a + b) == RenderSeq(indent, a) + RenderSeq(indent, b)
    decreases |b|
  {
    if b != [] {
      var b' := b[..|b| - 1];
      assert (a + b)[..|a + b| - 1] == a + b';
      RenderSeqAppend(indent, a, b');
    } else {
      assert a + b == a;
    }
  }

  /** The field numbers of a statement list, in the order they are written. */
  function FieldIds(ss: seq<Stmt>): seq<nat>
    decreases ss
  {
    if ss == [] then [] else FieldIds(ss[..|ss| - 1]) + StmtIds(ss[|ss| - 1])
  }

  function StmtIds(s: Stmt): seq<nat>
    decreases s
  {
    match s
    case Message(_, body) => FieldIds(body)
    case Oneof(_, body) => FieldIds(body)
    case Field(_, _, _, id) => [id]
  }

  /** The numbers start, start + 1, ..., start + count - 1. */
  function Iota(start: nat, count: nat): (r: seq<nat>)
    ensures |r| == count && forall i | 0 <= i < count :: r[i] == start + i
  {
    if count == 0 then [] else Iota(start, count - 1) + [start + count - 1]
  }

  lemma {:induction false} FieldIdsAppend(a: seq<Stmt>, b: seq<Stmt>)
    ensures FieldIds(a + b) == FieldIds(a) + FieldIds(b)
    decreases |b|
  {
    if b != [] {
      var b' := b[..|b| - 1];
      assert (a + b)[..|a + b| - 1] == a + b';
      FieldIdsAppend(a, b');
    } else {
      assert a + b == a;
    }
  }

  /** A list whose statement i is a single field numbered start + i uses the numbers
      start, start + 1, ... in order. */
  lemma {:induction false} FieldIdsConsecutive(ss: seq<Stmt>, start: nat)
    requires forall i | 0 <= i < |ss| :: StmtIds(ss[i]) == [start + i]
    ensures FieldIds(ss) == Iota(start, |ss|)
  {
    if ss != [] {
      var init := ss[..|ss| - 1];
      assert forall i | 0 <= i < |init| :: init[i] == ss[i];
      FieldIdsConsecutive(init, start);
    }
  }

  /** The names of the top-level statements of a list (block names, field names). */
  function TopNames(ss: seq<Stmt>): (r: seq<string>)
    ensures |r| == |ss|
  {
    seq(|ss|, i requires 0 <= i < |ss| => if ss[i].Field? then ss[i].fieldName else ss[i].name)
  }

  lemma TopNamesAppend(a: seq<Stmt>, b: seq<Stmt>)
    ensures TopNames(a + b) == TopNames(a) + TopNames(b)
  {
    assert forall i | 0 <= i < |a| :: (a + b)[i] == a[i];
    assert forall i | 0 <= i < |b| :: (a + b)[|a| + i] == b[i];
  }

  /** A list of one statement renders as that statement. */
  lemma RenderSeqOne(indent: nat, s: Stmt)
    ensures RenderSeq(indent, [s]) == Render(indent, s)
  {
    assert [s][..0] == [];
  }

  /** A block written as its opening line, then its body one level deeper, then its
      closing line, is the block's rendering. */
  lemma BlockText(indent: nat, s: Stmt, buf0: string, buf1: string, buf2: string, buf: string)
    requires s.Message? || s.Oneof?
    requires buf1 == buf0 + (Spaces(indent) + Header(if s.Message? then "message " else "oneof ", s.name))
    requires buf2 == buf1 + RenderSeq(indent + 1, s.body)
    requires buf == buf2 + (Spaces(indent) + Closing)
    ensures buf == buf0 + Render(indent, s)
  {
    var open := Open(indent, if s.Message? then "message " else "oneof ", s.name);
    AppendBlock(buf0, open, RenderSeq(indent + 1, s.body), Close(indent));
  }

  lemma RenderSeqSnoc(indent: nat, body: seq<Stmt>, s: Stmt)
    ensures RenderSeq(indent, body + [s]) == RenderSeq(indent, body) + Render(indent, s)
  {
    assert (body + [s])[..|body|] == body;
  }
}
