/**
 * The derive's input, as the parser hands it over, and the items it
 * generates, as abstract syntax rather than token text.
 */
module Syntax {
  import opened Wrappers
  import opened Attrs

  /** An enum variant: identifier, number of payload fields, and its `key_name` attribute. */
  datatype Variant = Variant(ident: string, fieldCount: nat, keyAttr: KeyNameAttr)

  /** `syn::Data`: the derive accepts only enums. */
  datatype Data = EnumData(variants: seq<Variant>) | StructData | UnionData

  datatype GenericParam = TypeParam(name: string) | LifetimeParam(name: string) | ConstParam(name: string)

  /** A type as it appears in a bound: a name with type arguments. */
  datatype TypeRef = TypeRef(name: string, args: seq<string>)

  /** One predicate of a where clause; the bounds are trait or lifetime paths. */
  datatype WherePredicate =
    | TypePredicate(bounded: TypeRef, bounds: seq<string>)
    | LifetimePredicate(lifetime: string, bounds: seq<string>)

  /** A where clause: its predicates, and whether the last one is followed by a comma. */
  datatype WhereClause = WhereClause(predicates: seq<WherePredicate>, trailingComma: bool)

  datatype Generics = Generics(params: seq<GenericParam>, whereClause: Option<WhereClause>)

  /** The parameters of the `VariantStruct` attribute. */
  datatype StructParams = StructParams(name: Option<string>, derive: Option<seq<string>>, features: StructMapFeatures)

  /**
   * The annotated item: its name, generics and body, the outcome of parsing
   * its `VariantStore` attribute, and its `VariantStruct` parameters.
   */
  datatype DeriveInput = DeriveInput(
    ident: string,
    generics: Generics,
    data: Data,
    baseAttr: Result<BaseAttr, AttrError>,
    structParams: StructParams)

  /** The type arguments `split_for_impl` writes after a type's name. */
  function TypeArgs(params: seq<GenericParam>): (r: seq<string>)
    ensures |r| == |params|
    ensures forall i :: 0 <= i < |params| ==> r[i] == params[i].name
  {
    seq(|params|, i requires 0 <= i < |params| => params[i].name)
  }

  /** The `(..)` pattern that skips a variant's payload. */
  datatype RestPattern = AnyFields

  /** `Enum::Variant` or `Enum::Variant(..)`. */
  datatype VariantPattern = VariantPattern(enumName: string, variantName: string, skipFields: Option<RestPattern>)

  /** `KeyEnum::Key`. */
  datatype KeyPath = KeyPath(keyEnumName: string, keyName: string)

  /** A key-enum variant, with its `#[serde(rename = ..)]` if any. */
  datatype KeyVariant = KeyVariant(name: string, serdeRename: Option<string>)

  /** The traits `variant_map` demands of a key: `HashKey` (hash map) and `OrdHashKey` (BTree map). */
  datatype KeyTrait = HashKey | OrdHashKey

  /** `MapValue::Map`: the library store over the key enum, or the generated struct. */
  datatype MapAssoc = LibraryMap(key: string, value: TypeRef) | GeneratedStruct(structName: string, args: seq<string>)

  /** One token of a where clause as written out. */
  datatype WhereToken = WhereKeyword | Comma | Predicate(pred: WherePredicate)

  /** The generated items. */
  datatype Item =
    | KeyEnumDef(visibility: Visibility, derives: seq<string>, name: string, variants: seq<KeyVariant>)
      /** The struct: one `Option<Enum<..>>` field per variant, named after its key. */
    | StructDef(visibility: Visibility, derives: seq<string>, name: string, params: seq<GenericParam>,
                whereClause: Option<WhereClause>, fields: seq<string>, fieldType: TypeRef)
      /** `Default`: each listed field set to `None`. */
    | DefaultImpl(structName: string, noneFields: seq<string>)
      /** `remove` (take field), `insert` (replace field), `get` and `get_mut` (borrow field). */
    | StructMapImpl(structName: string, removeArms: seq<(KeyPath, string)>, insertArms: seq<(VariantPattern, string)>,
                    getArms: seq<(KeyPath, string)>, getMutArms: seq<(KeyPath, string)>)
    | IndexImpl(structName: string, keyEnumName: string, indexArms: seq<(KeyPath, string)>, indexMutArms: seq<(KeyPath, string)>)
      /** `MapValue`: `Key`, `Map`, the `to_key` arms, and `make_map` as `Map::default()`. */
    | MapValueImpl(enumType: TypeRef, key: string, mapType: MapAssoc, toKeyArms: seq<(VariantPattern, KeyPath)>)
      /** `Serialize` for the struct: the length announced, then each listed field if occupied. */
    | SerializeImpl(structName: string, implWhere: WhereClause, lenHint: nat, fields: seq<string>)
      /** The visitor struct, its `Visitor` impl and `Deserialize` for the struct. */
    | DeserializeImpl(structName: string, visitor: string, implParams: seq<GenericParam>,
                      implWhere: WhereClause, arms: seq<(VariantPattern, string)>)
    | KeyTraitImpl(keyTrait: KeyTrait, keyEnumName: string)
      /** `use _variant_map::<module>::*;` */
    | UseMapModule(path: string)
    | CompileError(message: string)
      /** The fixed start of the anonymous const block. */
    | ExternCrateVariantMap
    | UseCommon
    | UseSerde
}
