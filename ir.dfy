/** The intermediate representation (src/main.rs:39-150): type references, field
    containers, declared types and the insertion-ordered module registry, with the
    classification rule of load_fields and the reject rules of load_proto. */
module Ir {
  import opened Wrappers

  /** A field type: a bare name, or a name applied to generic arguments. */
  datatype TypeRef = Normal(name: string) | Generic(name: string, args: seq<TypeRef>)

  /** The fields of a struct or of an enum variant: all unnamed, or all named. */
  datatype Fields = Tuple(types: seq<TypeRef>) | Struct(named: seq<(string, TypeRef)>)

  datatype StructTy = StructTy(fields: Fields)

  datatype EnumTy = EnumTy(variants: seq<(string, Fields)>)

  datatype Ty = Struct(structTy: StructTy) | Enum(enumTy: EnumTy)

  /** The field types of a container, in declaration order. */
  function FieldTypes(f: Fields): seq<TypeRef>
  {
    match f
    case Tuple(ts) => ts
    case Struct(ns) => seq(|ns|, i requires 0 <= i < |ns| => ns[i].1)
  }

  /** Fields::singleton: the type of the only field, when there is exactly one. */
  function Singleton(f: Fields): (r: Option<TypeRef>)
    ensures r.Some? <==> |FieldTypes(f)| == 1
    ensures r.Some? ==> FieldTypes(f) == [r.value]
  {
    match f
    case Tuple(ts) => if |ts| == 1 then Some(ts[0]) else None
    case Struct(ns) => if |ns| == 1 then Some(ns[0].1) else None
  }

  /** A field as the parser hands it over: an optional name and its type. */
  datatype SourceField = SourceField(ident: Option<string>, ty: TypeRef)

  predicate AllNamed(fs: seq<SourceField>) { forall i | 0 <= i < |fs| :: fs[i].ident.Some? }

  /** load_fields: a named container when every field has a name, a tuple otherwise. */
  function LoadFields(fs: seq<SourceField>): (r: Fields)
    ensures r.Struct? <==> AllNamed(fs)
    ensures FieldTypes(r) == seq(|fs|, i requires 0 <= i < |fs| => fs[i].ty)
    ensures r.Struct? ==>
              |r.named| == |fs| && forall i | 0 <= i < |fs| :: Some(r.named[i].0) == fs[i].ident
    ensures fs == [] ==> r == Fields.Struct([])
  {
    if AllNamed(fs) then
      Fields.Struct(seq(|fs|, i requires 0 <= i < |fs| => (fs[i].ident.value, fs[i].ty)))
    else
      Tuple(seq(|fs|, i requires 0 <= i < |fs| => fs[i].ty))
  }

  /** The registry of declared types: a map plus the order of insertion. */
  class IrModule {
    var types: map<string, Ty>
    var typesInOrder: seq<string>

    /** Every listed name has an entry, and every entry is listed. */
    ghost predicate Valid()
      reads this
    {
      (forall n | n in typesInOrder :: n in types) &&
      (forall n | n in types :: n in typesInOrder)
    }

    constructor ()
      ensures Valid() && types == map[] && typesInOrder == []
    {
      types := map[];
      typesInOrder := [];
    }

    /** add_type: insert (or overwrite) the entry and append the name, with no duplicate check. */
    method AddType(name: string, ty: Ty)
      requires Valid()
      modifies this
      ensures Valid()
      ensures typesInOrder == old(typesInOrder) + [name]
      ensures types == old(types)[name := ty]
      ensures name in old(typesInOrder) ==> multiset(typesInOrder)[name] >= 2
    {
      types := types[name := ty];
      typesInOrder := typesInOrder + [name];
    }
  }

  /** A top-level item as the parser hands it over; generic parameters are only counted. */
  datatype SourceVariant = SourceVariant(ident: string, fields: seq<SourceField>)

  datatype Item =
    | StructItem(ident: string, genericParams: nat, fields: seq<SourceField>)
    | EnumItem(ident: string, genericParams: nat, variants: seq<SourceVariant>)
    | OtherItem

  /** The two panics of the loader. */
  datatype LoadError = UnsupportedItem | UnsupportedGenericDeclaration

  /** load_struct / load_enum, and the rejection of any other item. */
  function LoadItem(item: Item): (r: Result<(string, Ty), LoadError>)
    ensures r.Success? <==> Accepted(item)
    ensures r.Failure? ==> r.error == (if item.OtherItem? then UnsupportedItem else UnsupportedGenericDeclaration)
    ensures r.Success? ==> r.value.0 == item.ident && (r.value.1.Struct? <==> item.StructItem?)
    ensures r.Success? && item.StructItem? ==> r.value.1.structTy.fields == LoadFields(item.fields)
    ensures r.Success? && item.EnumItem? ==>
              |r.value.1.enumTy.variants| == |item.variants| &&
              forall i | 0 <= i < |item.variants| ::
                r.value.1.enumTy.variants[i] == (item.variants[i].ident, LoadFields(item.variants[i].fields))
  {
    match item
    case StructItem(ident, g, fs) =>
      if g > 0 then Failure(UnsupportedGenericDeclaration)
      else Success((ident, Ty.Struct(StructTy(LoadFields(fs)))))
    case EnumItem(ident, g, vs) =>
      if g > 0 then Failure(UnsupportedGenericDeclaration)
      else Success((ident, Ty.Enum(EnumTy(seq(|vs|, i requires 0 <= i < |vs| =>
        (vs[i].ident, LoadFields(vs[i].fields)))))))
    case OtherItem => Failure(UnsupportedItem)
  }

  /** The declarations of all items in order, or the error of the first item rejected. */
  function LoadAll(items: seq<Item>): (r: Result<seq<(string, Ty)>, LoadError>)
    ensures r.Success? ==> |r.value| == |items|
  {
    if items == [] then Success([])
    else
      match LoadAll(items[..|items| - 1])
      case Failure(e) => Failure(e)
      case Success(decls) =>
        match LoadItem(items[|items| - 1])
        case Failure(e) => Failure(e)
        case Success(d) => Success(decls + [d])
  }

  /** The item is one the loader accepts. */
  predicate Accepted(item: Item)
  {
    (item.StructItem? || item.EnumItem?) && item.genericParams == 0
  }

  /** Loading succeeds exactly when every item is a struct or enum without generic
      parameters; it then yields one declaration per item, named after it. */
  lemma {:induction false} LoadAllSucceedsIff(items: seq<Item>)
    ensures LoadAll(items).Success? <==> forall i | 0 <= i < |items| :: Accepted(items[i])
    ensures LoadAll(items).Success? ==>
              |LoadAll(items).value| == |items| &&
              forall i | 0 <= i < |items| :: LoadAll(items).value[i].0 == items[i].ident
  {
    if items != [] {
      var init := items[..|items| - 1];
      LoadAllSucceedsIff(init);
      assert forall i | 0 <= i < |init| :: init[i] == items[i];
    }
  }

  /** The names of a declaration list, in order. */
  function Names(decls: seq<(string, Ty)>): (r: seq<string>)
    ensures |r| == |decls| && forall i | 0 <= i < |decls| :: r[i] == decls[i].0
  {
    seq(|decls|, i requires 0 <= i < |decls| => decls[i].0)
  }

  /** The map that inserting the declarations in order leaves behind (later entries win). */
  function Registry(decls: seq<(string, Ty)>): map<string, Ty>
  {
    if decls == [] then map[]
    else Registry(decls[..|decls| - 1])[decls[|decls| - 1].0 := decls[|decls| - 1].1]
  }

  /** load_proto: add every item's declaration to a fresh module, or stop at the first rejected item. */
  method LoadProto(items: seq<Item>) returns (r: Result<IrModule, LoadError>)
    ensures LoadAll(items).Failure? ==> r == Failure(LoadAll(items).error)
    ensures LoadAll(items).Success? ==>
      r.Success? && fresh(r.value) && r.value.Valid() &&
      r.value.typesInOrder == Names(LoadAll(items).value) &&
      r.value.types == Registry(LoadAll(items).value)
  {
    var ir := new IrModule();
    var i := 0;
    while i < |items|
      invariant 0 <= i <= |items|
      invariant fresh(ir) && ir.Valid()
      invariant LoadAll(items[..i]).Success?
      invariant ir.typesInOrder == Names(LoadAll(items[..i]).value)
      invariant ir.types == Registry(LoadAll(items[..i]).value)
    {
      assert items[..i + 1][..i] == items[..i];
      var loaded := LoadItem(items[i]);
      if loaded.Failure? {
        LoadAllFailurePersists(items, i + 1);
        return Failure(loaded.error);
      }
      ghost var before := LoadAll(items[..i]).value;
      ir.AddType(loaded.value.0, loaded.value.1);
      i := i + 1;
      assert LoadAll(items[..i]).value == before + [loaded.value];
      assert (before + [loaded.value])[..|before|] == before;
    }
    assert items[..i] == items;
    return Success(ir);
  }

  /** Declaration i is item i as load_struct / load_enum load it. */
  lemma {:induction false} LoadAllAt(items: seq<Item>)
    requires LoadAll(items).Success?
    ensures forall i | 0 <= i < |items| ::
              LoadItem(items[i]).Success? && LoadAll(items).value[i] == LoadItem(items[i]).value
  {
    if items != [] {
      var init := items[..|items| - 1];
      LoadAllAt(init);
      assert forall i | 0 <= i < |init| :: init[i] == items[i];
    }
  }

  /** When items before k are accepted and item k is not, loading fails with item k's error. */
  lemma {:induction false} LoadAllFirstError(items: seq<Item>, k: nat)
    requires k < |items| && !Accepted(items[k])
    requires forall i | 0 <= i < k :: Accepted(items[i])
    ensures LoadAll(items) == Failure(LoadItem(items[k]).error)
  {
    var prefix := items[..k];
    assert forall i | 0 <= i < |prefix| :: Accepted(prefix[i]);
    LoadAllSucceedsIff(prefix);
    assert items[..k + 1][..k] == prefix;
    assert LoadAll(items[..k + 1]) == Failure(LoadItem(items[k]).error);
    LoadAllFailurePersists(items, k + 1);
  }

  /** Once a prefix fails to load, the whole list fails with the same error. */
  lemma {:induction false} LoadAllFailurePersists(items: seq<Item>, k: nat)
    requires k <= |items|
    requires LoadAll(items[..k]).Failure?
    ensures LoadAll(items) == LoadAll(items[..k])
    decreases |items| - k
  {
    if k < |items| {
      assert items[..k + 1][..k] == items[..k];
      LoadAllFailurePersists(items, k + 1);
    } else {
      assert items[..k] == items;
    }
  }
}
