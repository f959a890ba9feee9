/**
 * The `StructMap` generator: the struct with one `Option` field per
 * variant, its `Default`, `remove`/`insert`/`get`/`get_mut`, the optional
 * `Index`/`IndexMut`, `Serialize` and `Deserialize` impls, `MapValue`, and
 * the where clauses of the serde impls.
 */
module Structs {
  import opened Wrappers
  import opened Attrs
  import opened Syntax
  import opened Common

  /** The enum as a type: its name and its generic parameters as arguments. */
  function EnumTypeRef(input: DeriveInput): (r: TypeRef)
    ensures r.name == input.ident && r.args == TypeArgs(input.generics.params)
  {
    TypeRef(input.ident, TypeArgs(input.generics.params))
  }

  const SerializeBound: string := "::serde::Serialize"
  const DeserializerLifetime: string := "'_serde_deserializer_lifetime_de"
  const DeserializeBound: string := "::serde::Deserialize<'_serde_deserializer_lifetime_de>"

  /** Predicates separated by commas, with no comma after the last. */
  function Separated(preds: seq<WherePredicate>): (r: seq<WhereToken>)
    ensures |r| == if preds == [] then 0 else 2 * |preds| - 1
  {
    if preds == [] then []
    else if |preds| == 1 then [Predicate(preds[0])]
    else [Predicate(preds[0]), Comma] + Separated(preds[1..])
  }

  lemma {:induction false} SeparatedSnoc(preds: seq<WherePredicate>, q: WherePredicate)
    requires preds != []
    ensures Separated(preds + [q]) == Separated(preds) + [Comma, Predicate(q)]
  {
    if |preds| > 1 {
      assert (preds + [q])[1..] == preds[1..] + [q];
      SeparatedSnoc(preds[1..], q);
    }
  }

  /**
   * A where clause written out as syn writes one: nothing at all when
   * there is no predicate, else `where`, the predicates separated by
   * commas, and the trailing comma the source had.
   */
  function RenderWhere(wc: WhereClause): seq<WhereToken> {
    if wc.predicates == [] then []
    else [WhereKeyword] + Separated(wc.predicates) + (if wc.trailingComma then [Comma] else [])
  }

  /** A comma-separated predicate list in which a final comma is allowed. */
  ghost predicate PredicateList(ts: seq<WhereToken>)
    decreases |ts|
  {
    ts == [] ||
    (ts[0].Predicate? && (|ts| == 1 || (ts[1] == Comma && PredicateList(ts[2..]))))
  }

  /** Rust's where-clause grammar: empty, or `where` and a predicate list. */
  ghost predicate WellFormedWhere(ts: seq<WhereToken>) {
    ts == [] || (ts[0] == WhereKeyword && PredicateList(ts[1..]))
  }

  lemma {:induction false} SeparatedIsList(preds: seq<WherePredicate>, trailing: bool)
    ensures PredicateList(Separated(preds) + (if trailing && preds != [] then [Comma] else []))
  {
    if |preds| > 1 {
      SeparatedIsList(preds[1..], trailing);
      var tail := Separated(preds[1..]) + (if trailing then [Comma] else []);
      assert ([Predicate(preds[0]), Comma] + Separated(preds[1..]) + (if trailing then [Comma] else []))[2..] == tail;
    }
  }

  /** Whatever the source clause, syn's rendering of it is well formed. */
  lemma RenderWhereWellFormed(wc: WhereClause)
    ensures WellFormedWhere(RenderWhere(wc))
  {
    if wc.predicates != [] {
      SeparatedIsList(wc.predicates, wc.trailingComma);
      var ts := RenderWhere(wc);
      assert ts[1..] == Separated(wc.predicates) + (if wc.trailingComma then [Comma] else []);
    }
  }

  /** `Enum<..>: bound`. */
  function EnumBound(enumType: TypeRef, bound: string): WherePredicate {
    TypePredicate(enumType, [bound])
  }

  /**
   * `where_clause_add_enum_bound` as written: the source clause with the
   * bound added to each type predicate, written out, then `,` and the
   * enum's own bound; or `where` and the enum's bound when there is no
   * clause.
   */
  function WhereClauseAddEnumBoundAsWritten(wc: Option<WhereClause>, enumType: TypeRef, bound: string): (r: seq<WhereToken>)
    ensures |r| >= 2 && r[|r| - 1] == Predicate(EnumBound(enumType, bound))
  {
    match wc
    case Some(clause) => RenderWhere(WithTrait(clause, bound)) + [Comma, Predicate(EnumBound(enumType, bound))]
    case None => [WhereKeyword, Predicate(EnumBound(enumType, bound))]
  }

  /**
   * A clause that ends in a comma, which Rust accepts on the enum
   * (`where T: Clone,`), comes out with two commas in a row; a clause
   * `where` with no predicate comes out as a lone comma. Neither parses.
   */
  lemma WhereClauseAddEnumBoundBreaks()
    ensures !WellFormedWhere(WhereClauseAddEnumBoundAsWritten(
              Some(WhereClause([TypePredicate(TypeRef("T", []), ["Clone"])], true)), TypeRef("E", ["T"]), SerializeBound))
    ensures !WellFormedWhere(WhereClauseAddEnumBoundAsWritten(
              Some(WhereClause([], false)), TypeRef("E", ["T"]), SerializeBound))
  {
    var p := TypePredicate(TypeRef("T", []), ["Clone"]);
    var e := EnumBound(TypeRef("E", ["T"]), SerializeBound);
    var w := WithTrait(WhereClause([p], true), SerializeBound);
    assert w.predicates == [AddBound(p, SerializeBound)];
    var ts := WhereClauseAddEnumBoundAsWritten(Some(WhereClause([p], true)), TypeRef("E", ["T"]), SerializeBound);
    assert ts == [WhereKeyword, Predicate(AddBound(p, SerializeBound)), Comma, Comma, Predicate(e)];
    assert ts[1..][2..] == [Comma, Predicate(e)];
    assert !PredicateList([Comma, Predicate(e)]);
    assert !PredicateList(ts[1..]);
    var us := WhereClauseAddEnumBoundAsWritten(Some(WhereClause([], false)), TypeRef("E", ["T"]), SerializeBound);
    assert us == [Comma, Predicate(e)];
  }

  /**
   * `where_clause_add_enum_bound` as intended: the source predicates, each
   * type predicate with the bound added, then the enum's bound as one more
   * predicate. Written out it is always a well-formed clause.
   */
  function WhereClauseAddEnumBound(wc: Option<WhereClause>, enumType: TypeRef, bound: string): (r: WhereClause)
    ensures r.predicates ==
              (if wc.Some? then WithTrait(wc.value, bound).predicates else []) + [EnumBound(enumType, bound)]
    ensures WellFormedWhere(RenderWhere(r))
  {
    var preds := if wc.Some? then WithTrait(wc.value, bound).predicates else [];
    var r := WhereClause(preds + [EnumBound(enumType, bound)], false);
    RenderWhereWellFormed(r);
    r
  }

  /**
   * Where the source clause is absent, or non-empty without a final comma,
   * the written form is exactly the intended clause written out.
   */
  lemma AsWrittenAgreesOtherwise(wc: Option<WhereClause>, enumType: TypeRef, bound: string)
    requires wc.Some? ==> wc.value.predicates != [] && !wc.value.trailingComma
    ensures WhereClauseAddEnumBoundAsWritten(wc, enumType, bound) == RenderWhere(WhereClauseAddEnumBound(wc, enumType, bound))
  {
    var e := EnumBound(enumType, bound);
    if wc.Some? {
      var preds := WithTrait(wc.value, bound).predicates;
      SeparatedSnoc(preds, e);
    }
  }

  /** The key names in declaration order: the struct's field names. */
  function FieldNames(input: DeriveInput, variants: seq<Variant>, keyEnumName: string): (r: seq<string>)
    ensures |r| == |variants|
    ensures forall i :: 0 <= i < |variants| ==> r[i] == KeyName(variants[i].keyAttr, variants[i].ident)
  {
    EnumEntriesMapTo(input.ident, variants, keyEnumName, (e: Entry) => e.keyName)
  }

  /**
   * `generate_impl_serialize`: the fields written in declaration order,
   * each only if occupied, after announcing the variant count as the
   * length; the serde bound added to the where clause.
   */
  function GenerateImplSerialize(structName: string, input: DeriveInput, variants: seq<Variant>, keyEnumName: string): (r: Item)
    ensures r.SerializeImpl? && r.structName == structName
    ensures r.lenHint == |variants|
    ensures r.fields == FieldNames(input, variants, keyEnumName)
    ensures r.implWhere == WhereClauseAddEnumBound(input.generics.whereClause, EnumTypeRef(input), SerializeBound)
  {
    SerializeImpl(structName, WhereClauseAddEnumBound(input.generics.whereClause, EnumTypeRef(input), SerializeBound),
                  |variants|, FieldNames(input, variants, keyEnumName))
  }

  const VisitorPrefix: string := "__VariantStore__StructMap__"
  const VisitorSuffix: string := "__Visitor"

  /**
   * `generate_impl_deserialize`: a visitor named after the key enum, an
   * extra deserializer lifetime on the impls, the serde bound, and one arm
   * per variant storing the element in that variant's field.
   */
  function GenerateImplDeserialize(structName: string, input: DeriveInput, variants: seq<Variant>, keyEnumName: string): (r: Item)
    ensures r.DeserializeImpl? && r.structName == structName
    ensures r.visitor == VisitorPrefix + keyEnumName + VisitorSuffix
    ensures r.implParams == input.generics.params + [LifetimeParam(DeserializerLifetime)]
    ensures r.implWhere == WhereClauseAddEnumBound(input.generics.whereClause, EnumTypeRef(input), DeserializeBound)
    ensures |r.arms| == |variants|
    ensures forall i :: 0 <= i < |variants| ==>
              r.arms[i] == (PatternOf(EntryOf(input.ident, variants[i], keyEnumName)), KeyName(variants[i].keyAttr, variants[i].ident))
  {
    DeserializeImpl(structName, VisitorPrefix + keyEnumName + VisitorSuffix,
                    input.generics.params + [LifetimeParam(DeserializerLifetime)],
                    WhereClauseAddEnumBound(input.generics.whereClause, EnumTypeRef(input), DeserializeBound),
                    EnumEntriesMapTo(input.ident, variants, keyEnumName, (e: Entry) => (PatternOf(e), e.keyName)))
  }

  /** The arms of a `match` on a key that reach each key's field. */
  function KeyFieldArms(input: DeriveInput, variants: seq<Variant>, keyEnumName: string): (r: seq<(KeyPath, string)>)
    ensures |r| == |variants|
    ensures forall i :: 0 <= i < |variants| ==>
              r[i] == (KeyPath(keyEnumName, KeyName(variants[i].keyAttr, variants[i].ident)), KeyName(variants[i].keyAttr, variants[i].ident))
  {
    EnumEntriesMapTo(input.ident, variants, keyEnumName, (e: Entry) => (KeyPathOf(e), e.keyName))
  }

  /**
   * `generate_enum_struct_impl`: `remove`, `get` and `get_mut` match the
   * key and reach the field named after it; `insert` matches the value's
   * variant and replaces the field named after that variant's key.
   */
  function GenerateEnumStructImpl(input: DeriveInput, variants: seq<Variant>, keyEnumName: string, structName: string): (r: Item)
    ensures r.StructMapImpl? && r.structName == structName
    ensures r.removeArms == r.getArms == r.getMutArms == KeyFieldArms(input, variants, keyEnumName)
    ensures |r.insertArms| == |variants|
    ensures forall i :: 0 <= i < |variants| ==>
              r.insertArms[i] == (PatternOf(EntryOf(input.ident, variants[i], keyEnumName)), KeyName(variants[i].keyAttr, variants[i].ident))
  {
    var keyArms := KeyFieldArms(input, variants, keyEnumName);
    StructMapImpl(structName, keyArms,
                  EnumEntriesMapTo(input.ident, variants, keyEnumName, (e: Entry) => (PatternOf(e), e.keyName)),
                  keyArms, keyArms)
  }

  /**
   * `generate_enum_struct_code`: the struct, one `Option<Enum<..>>` field
   * per variant named after its key, with the attribute's visibility and
   * `Debug` plus the user's derives; and `Default`, setting every field to
   * `None`.
   */
  function GenerateEnumStructCode(attr: StructAttr, input: DeriveInput, variants: seq<Variant>, keyEnumName: string, structName: string): (r: seq<Item>)
    ensures |r| == 2 && r[0].StructDef? && r[1].DefaultImpl?
    ensures r[0].name == structName && r[0].visibility == RenderedVisibility(attr.base.visibility)
    ensures r[0].derives == ["Debug"] + attr.derive.UnwrapOr([])
    ensures r[0].fields == r[1].noneFields == FieldNames(input, variants, keyEnumName)
    ensures r[0].fieldType == EnumTypeRef(input) && r[1].structName == structName
  {
    var fields := FieldNames(input, variants, keyEnumName);
    [StructDef(RenderedVisibility(attr.base.visibility), ["Debug"] + attr.derive.UnwrapOr([]), structName,
               input.generics.params, input.generics.whereClause, fields, EnumTypeRef(input)),
     DefaultImpl(structName, fields)]
  }

  /** `generate_impl_index`: `index` and `index_mut` reach the key's field, like `get` and `get_mut`. */
  function GenerateImplIndex(input: DeriveInput, variants: seq<Variant>, keyEnumName: string, structName: string): (r: Item)
    ensures r.IndexImpl? && r.structName == structName && r.keyEnumName == keyEnumName
    ensures r.indexArms == r.indexMutArms == KeyFieldArms(input, variants, keyEnumName)
  {
    var keyArms := KeyFieldArms(input, variants, keyEnumName);
    IndexImpl(structName, keyEnumName, keyArms, keyArms)
  }

  /**
   * `generate_impl_map_value` for a struct: `Map` is the generated struct,
   * and `to_key` maps each variant, whatever its payload, to its key.
   */
  function GenerateImplMapValue(structName: string, input: DeriveInput, variants: seq<Variant>, keyEnumName: string): (r: Item)
    ensures r.MapValueImpl? && r.key == keyEnumName && r.enumType == EnumTypeRef(input)
    ensures r.mapType == GeneratedStruct(structName, TypeArgs(input.generics.params))
    ensures |r.toKeyArms| == |variants|
    ensures forall i :: 0 <= i < |variants| ==>
              r.toKeyArms[i] == (PatternOf(EntryOf(input.ident, variants[i], keyEnumName)),
                                 KeyPath(keyEnumName, KeyName(variants[i].keyAttr, variants[i].ident)))
  {
    MapValueImpl(EnumTypeRef(input), keyEnumName, GeneratedStruct(structName, TypeArgs(input.generics.params)),
                 EnumEntriesMapTo(input.ident, variants, keyEnumName, (e: Entry) => (PatternOf(e), KeyPathOf(e))))
  }

  /**
   * For a value of variant `i`: `to_key` gives key `i`, `insert` writes
   * field `i`, `get` of that key reads field `i`, and deserialising the
   * value stores it in field `i`. So `get(to_key(v))` finds what
   * `insert(v)` stored, which is the `variantOf` reading of the store.
   */
  lemma {:induction false} GeneratedArmsAgree(structName: string, input: DeriveInput, variants: seq<Variant>, keyEnumName: string, i: nat)
    requires IdentsDistinct(variants) && KeyNamesDistinct(variants) && i < |variants|
    ensures var field := FieldNames(input, variants, keyEnumName)[i];
            var ident := variants[i].ident;
            Select(GenerateImplMapValue(structName, input, variants, keyEnumName).toKeyArms, VariantLabel, ident)
              == Some(KeyPath(keyEnumName, field)) &&
            Select(GenerateEnumStructImpl(input, variants, keyEnumName, structName).insertArms, VariantLabel, ident) == Some(field) &&
            Select(GenerateEnumStructImpl(input, variants, keyEnumName, structName).getArms, KeyLabel, field) == Some(field) &&
            Select(GenerateImplDeserialize(structName, input, variants, keyEnumName).arms, VariantLabel, ident) == Some(field)
  {
    var toKey := GenerateImplMapValue(structName, input, variants, keyEnumName).toKeyArms;
    var impl := GenerateEnumStructImpl(input, variants, keyEnumName, structName);
    var deser := GenerateImplDeserialize(structName, input, variants, keyEnumName).arms;
    VariantArmSelected(toKey, variants, i);
    VariantArmSelected(impl.insertArms, variants, i);
    KeyArmSelected(impl.getArms, variants, i);
    VariantArmSelected(deser, variants, i);
  }

  /**
   * The generated impls of a struct expansion: the methods, the optional
   * `Index`, `MapValue`, and the optional `Serialize` and `Deserialize`,
   * in that order.
   */
  function Impls(methods: Item, index: Option<Item>, mapValue: Item, ser: Option<Item>, de: Option<Item>): (r: seq<Item>)
    requires methods.StructMapImpl? && mapValue.MapValueImpl?
    requires index.Some? ==> index.value.IndexImpl?
    requires ser.Some? ==> ser.value.SerializeImpl?
    requires de.Some? ==> de.value.DeserializeImpl?
    ensures |r| > 0 && methods in r && mapValue in r
    ensures forall it :: it in r ==> !(it.KeyEnumDef? || it.StructDef? || it.DefaultImpl?)
    ensures (exists it :: it in r && it.IndexImpl?) <==> index.Some?
    ensures (exists it :: it in r && it.SerializeImpl?) <==> ser.Some?
    ensures (exists it :: it in r && it.DeserializeImpl?) <==> de.Some?
    ensures index.Some? ==> index.value in r
    ensures ser.Some? ==> ser.value in r
    ensures de.Some? ==> de.value in r
  {
    var r := [methods] + Opt(index) + [mapValue] + Opt(ser) + Opt(de);
    assert forall it :: it in r ==>
      it == methods || it in Opt(index) || it == mapValue || it in Opt(ser) || it in Opt(de);
    assert index.Some? ==> index.value in r;
    assert ser.Some? ==> ser.value in r;
    assert de.Some? ==> de.value in r;
    r
  }

  /**
   * The inside part of a struct expansion: the items that stay in scope,
   * then the generated impls.
   */
  function AssembleInside(head: seq<Item>, methods: Item, index: Option<Item>, mapValue: Item,
                          ser: Option<Item>, de: Option<Item>): (r: seq<Item>)
    requires forall it :: it in head ==> it.KeyEnumDef? || it.StructDef? || it.DefaultImpl?
    requires methods.StructMapImpl? && mapValue.MapValueImpl?
    requires index.Some? ==> index.value.IndexImpl?
    requires ser.Some? ==> ser.value.SerializeImpl?
    requires de.Some? ==> de.value.DeserializeImpl?
    ensures |r| > |head| && r[..|head|] == head
    ensures methods in r && mapValue in r
    ensures (exists it :: it in r && it.IndexImpl?) <==> index.Some?
    ensures (exists it :: it in r && it.SerializeImpl?) <==> ser.Some?
    ensures (exists it :: it in r && it.DeserializeImpl?) <==> de.Some?
    ensures index.Some? ==> index.value in r
    ensures ser.Some? ==> ser.value in r
    ensures de.Some? ==> de.value in r
  {
    var impls := Impls(methods, index, mapValue, ser, de);
    HeadThenImpls(head, impls);
    head + impls
  }

  /** Behind items that are no impls, the impls of `head + impls` are exactly those of `impls`. */
  lemma HeadThenImpls(head: seq<Item>, impls: seq<Item>)
    requires forall it :: it in head ==> it.KeyEnumDef? || it.StructDef? || it.DefaultImpl?
    requires forall it :: it in impls ==> !(it.KeyEnumDef? || it.StructDef? || it.DefaultImpl?)
    ensures (head + impls)[..|head|] == head
    ensures forall it :: it in impls ==> it in head + impls
    ensures forall it :: it in head + impls && (it.IndexImpl? || it.SerializeImpl? || it.DeserializeImpl?) ==> it in impls
  {
    var r := head + impls;
    assert r[..|head|] == head;
    assert forall it :: it in r ==> it in head || it in impls;
  }

  /** The `StructMap` parameters of a derive input whose `VariantStore` attribute parsed. */
  function StructAttrOf(input: DeriveInput): (r: StructAttr)
    requires input.baseAttr.Ok?
    ensures r.base == input.baseAttr.value && r.features == input.structParams.features
  {
    StructAttr(input.baseAttr.value, input.structParams.name, input.structParams.derive, input.structParams.features)
  }

  /** The items placed by visibility: the key enum, then the struct and its `Default`. */
  function StructFront(input: DeriveInput, mapType: MapType, variants: seq<Variant>, keyEnumName: string): (r: seq<Item>)
    requires input.baseAttr.Ok?
    ensures |r| == 3 && r[0] == GenerateKeyEnum(mapType, input.baseAttr.value, variants, keyEnumName)
    ensures r[1..] == GenerateEnumStructCode(StructAttrOf(input), input, variants, keyEnumName, StructName(StructAttrOf(input), input.ident))
  {
    var attr := StructAttrOf(input);
    [GenerateKeyEnum(mapType, attr.base, variants, keyEnumName)] +
      GenerateEnumStructCode(attr, input, variants, keyEnumName, StructName(attr, input.ident))
  }

  /**
   * `generate_struct_code`: `Err(())` unless the input is an enum. For an
   * enum, the key enum and the struct with its `Default` go before the
   * anonymous const (and not into it), or head it when the visibility is
   * `out-of-scope`;
   * the inside part holds the generated methods and `MapValue`, the
   * generated `Index` iff the `index` feature, `Serialize` iff
   * `serialize` and `Deserialize` iff `deserialize`.
   */
  function GenerateStructCode(input: DeriveInput, mapType: MapType, keyEnumName: string): (r: Result<(Option<seq<Item>>, Option<seq<Item>>), ()>)
    requires input.baseAttr.Ok?
    ensures r.Err? <==> !input.data.EnumData?
    ensures r.Ok? ==> r.value.1.Some?
    ensures r.Ok? ==> var front := StructFront(input, mapType, input.data.variants, keyEnumName);
              var inside := r.value.1.value;
              if input.baseAttr.value.visibility.OutOfScope?
              then r.value.0 == None && |inside| > |front| && inside[..|front|] == front
              else r.value.0 == Some(front) && forall it :: it in inside ==> !(it.KeyEnumDef? || it.StructDef? || it.DefaultImpl?)
    ensures r.Ok? ==> var inside := r.value.1.value;
              var variants := input.data.variants;
              var structName := StructName(StructAttrOf(input), input.ident);
              GenerateEnumStructImpl(input, variants, keyEnumName, structName) in inside &&
              GenerateImplMapValue(structName, input, variants, keyEnumName) in inside &&
              (UseIndex(input.structParams.features) ==> GenerateImplIndex(input, variants, keyEnumName, structName) in inside) &&
              (UseSerialize(input.structParams.features) ==> GenerateImplSerialize(structName, input, variants, keyEnumName) in inside) &&
              (UseDeserialize(input.structParams.features) ==> GenerateImplDeserialize(structName, input, variants, keyEnumName) in inside)
    ensures r.Ok? ==> var inside := r.value.1.value;
              ((exists it :: it in inside && it.IndexImpl?) <==> UseIndex(input.structParams.features)) &&
              ((exists it :: it in inside && it.SerializeImpl?) <==> UseSerialize(input.structParams.features)) &&
              ((exists it :: it in inside && it.DeserializeImpl?) <==> UseDeserialize(input.structParams.features))
  {
    var attr := StructAttrOf(input);
    match input.data
    case EnumData(variants) =>
      var structName := StructName(attr, input.ident);
      var front := StructFront(input, mapType, variants, keyEnumName);
      var methods := GenerateEnumStructImpl(input, variants, keyEnumName, structName);
      var mapValue := GenerateImplMapValue(structName, input, variants, keyEnumName);
      var index := if !UseIndex(attr.features) then None else Some(GenerateImplIndex(input, variants, keyEnumName, structName));
      var ser := if !UseSerialize(attr.features) then None else Some(GenerateImplSerialize(structName, input, variants, keyEnumName));
      var de := if !UseDeserialize(attr.features) then None else Some(GenerateImplDeserialize(structName, input, variants, keyEnumName));
      var (outside, insideOpt) := InOrOutScope(attr.base.visibility, front);
      var insideHead := if insideOpt.Some? then insideOpt.value else [];
      assert forall it :: it in insideHead ==> it.KeyEnumDef? || it.StructDef? || it.DefaultImpl?;
      var inside := AssembleInside(insideHead, methods, index, mapValue, ser, de);
      Ok((outside, Some(inside)))
    case _ => Err(())
  }
}
