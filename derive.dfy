/**
 * `#[derive(VariantStore)]`: reads the `VariantStore` parameters, names the
 * key enum, dispatches on the map type, and arranges the generated items
 * before and inside an anonymous `const _: () = { .. };` block.
 */
module Derive {
  import opened Wrappers
  import opened Attrs
  import opened Syntax
  import opened Common
  import Maps
  import Structs

  /** The expansion: items before the anonymous const and the items in it; or a panic of the macro. */
  datatype Expansion = Expanded(outside: seq<Item>, constBlock: seq<Item>) | Panicked(message: string)

  const WrongParameters: string := "Wrong VariantStore parameters"
  const NotAnEnum: string := "VariantStore works only on enums"
  const KeySuffix: string := "Key"

  /** The items every anonymous const starts with: the `variant_map` crate, its `common` module and serde. */
  const Prelude: seq<Item> := [ExternCrateVariantMap, UseCommon, UseSerde]

  /** The key enum's name: `keys(name = ..)` when given, else the enum's name followed by `Key`. */
  function KeyEnumName(base: BaseAttr, enumName: string): (r: string)
    ensures base.keys.Some? && base.keys.value.name.Some? ==> r == base.keys.value.name.value
    ensures base.keys.None? || base.keys.value.name.None? ==> r == enumName + KeySuffix
  {
    KeysName(base, enumName + KeySuffix)
  }

  /**
   * `derive`: a malformed `VariantStore` attribute or an unknown
   * `datastruct` makes the macro panic. Otherwise the map type picks the
   * generator; a non-enum input becomes a compile error placed before the
   * const, with nothing of the generator's inside it.
   */
  function Derive(input: DeriveInput): (r: Expansion)
    ensures input.baseAttr.Err? ==> r == Panicked(WrongParameters)
    ensures input.baseAttr.Ok? && MapTypeOf(input.baseAttr.value).Err? ==> r == Panicked(InvalidMapTypeMessage)
    ensures r.Expanded? ==> |r.constBlock| >= |Prelude| && r.constBlock[..|Prelude|] == Prelude
    ensures r.Expanded? && !input.data.EnumData? ==> r == Expanded([CompileError(NotAnEnum)], Prelude)
  {
    match input.baseAttr
    case Err(_) => Panicked(WrongParameters)
    case Ok(base) =>
      var keyEnumName := KeyEnumName(base, input.ident);
      match MapTypeOf(base)
      case Err(message) => Panicked(message)
      case Ok(mapType) =>
        var result :=
          if mapType.Struct? then Structs.GenerateStructCode(input, mapType, keyEnumName)
          else Maps.GenerateMapCode(input, mapType, keyEnumName);
        var (outside, inside) :=
          match result
          case Ok(parts) => parts
          case Err(_) => (Some([CompileError(NotAnEnum)]), None);
        Expanded(if outside.Some? then outside.value else [],
                 Prelude + if inside.Some? then inside.value else [])
  }

  /**
   * A `StructMap` enum expands to what `generate_struct_code` returns,
   * behind the prelude; among it is the generated struct, before or inside
   * the const.
   */
  lemma StructDispatch(input: DeriveInput, base: BaseAttr)
    requires input.baseAttr == Ok(base) && MapTypeOf(base) == Ok(Struct) && input.data.EnumData?
    ensures var res := Structs.GenerateStructCode(input, Struct, KeyEnumName(base, input.ident));
            res.Ok? && res.value.1.Some? &&
            Derive(input) == Expanded(res.value.0.UnwrapOr([]), Prelude + res.value.1.value)
    ensures var r := Derive(input);
            r.Expanded? && exists it :: (it in r.outside || it in r.constBlock) && it.StructDef?
  {
    var keyEnumName := KeyEnumName(base, input.ident);
    var res := Structs.GenerateStructCode(input, Struct, keyEnumName);
    var front := Structs.StructFront(input, Struct, input.data.variants, keyEnumName);
    var attr := Structs.StructAttrOf(input);
    var structCode := Structs.GenerateEnumStructCode(attr, input, input.data.variants, keyEnumName, StructName(attr, input.ident));
    assert front[1] == structCode[0] && front[1].StructDef?;
    var r := Derive(input);
    if base.visibility.OutOfScope? {
      var inside := res.value.1.value;
      assert inside[1] == front[1];
      assert r.constBlock[|Prelude| + 1] == inside[1];
    } else {
      assert r.outside == front;
    }
  }

  /** A hash-map or BTree-map enum expands to what `generate_map_code` returns, behind the prelude. */
  lemma MapExpansion(input: DeriveInput, base: BaseAttr, mapType: MapType)
    requires input.baseAttr == Ok(base) && MapTypeOf(base) == Ok(mapType) && !mapType.Struct? && input.data.EnumData?
    ensures var res := Maps.GenerateMapCode(input, mapType, KeyEnumName(base, input.ident));
            res.Ok? && res.value.1.Some? &&
            Derive(input) == Expanded(res.value.0.UnwrapOr([]), Prelude + res.value.1.value)
  {
  }

  /**
   * A hash-map or BTree-map enum expands to the `use` of the store's
   * module right after the prelude, and to no struct.
   */
  lemma MapDispatch(input: DeriveInput, base: BaseAttr, mapType: MapType)
    requires input.baseAttr == Ok(base) && MapTypeOf(base) == Ok(mapType) && !mapType.Struct? && input.data.EnumData?
    ensures var r := Derive(input);
            r.Expanded? && |r.constBlock| > |Prelude| && r.constBlock[|Prelude|] == UseMapModule(ModulePath(mapType)) &&
            forall it :: it in r.outside || it in r.constBlock ==> !it.StructDef?
  {
    var res := Maps.GenerateMapCode(input, mapType, KeyEnumName(base, input.ident));
    MapExpansion(input, base, mapType);
    var outside := res.value.0.UnwrapOr([]);
    assert forall it :: it in outside ==> it.KeyEnumDef?;
    NoStructBehindPrelude(outside, res.value.1.value, UseMapModule(ModulePath(mapType)));
  }

  /** An expansion whose inside part starts with `first` and holds no struct, behind the prelude. */
  lemma NoStructBehindPrelude(outside: seq<Item>, inside: seq<Item>, first: Item)
    requires |inside| > 0 && inside[0] == first
    requires forall it :: it in outside || it in inside ==> !it.StructDef?
    ensures var block := Prelude + inside;
            |block| > |Prelude| && block[|Prelude|] == first &&
            forall it :: it in outside || it in block ==> !it.StructDef?
  {
    var block := Prelude + inside;
    assert forall it :: it in block ==> it in Prelude || it in inside;
  }

  /**
   * With default parameters, `enum E { .. }` gets a hash-map store keyed
   * by `EKey`, declared before the const with private visibility, in
   * declaration order, with the hash map's derives.
   */
  lemma DefaultExpansion(ident: string, generics: Generics, variants: seq<Variant>, params: StructParams)
    ensures var input := DeriveInput(ident, generics, EnumData(variants), Ok(DefaultBaseAttr), params);
            var r := Derive(input);
            r.Expanded? && |r.outside| == 1 &&
            r.outside[0] == GenerateKeyEnum(HashMap, DefaultBaseAttr, variants, ident + KeySuffix) &&
            r.outside[0].visibility == Inherited &&
            r.outside[0].derives == ["Debug", "PartialEq", "Eq", "Hash"] &&
            r.constBlock[|Prelude|] == UseMapModule("hashmap")
  {
    var input := DeriveInput(ident, generics, EnumData(variants), Ok(DefaultBaseAttr), params);
    var res := Maps.GenerateMapCode(input, HashMap, ident + KeySuffix);
    assert Derive(input).constBlock == Prelude + res.value.1.value;
  }

  /**
   * The default names of the generated types never clash with the enum
   * or with each other: `EKey` and `EStructMap` are longer than `E`, and
   * differ in their suffix.
   */
  lemma DefaultNamesDistinct(enumName: string, attr: StructAttr)
    requires attr.name.None?
    ensures var key := KeyEnumName(DefaultBaseAttr, enumName);
            var st := StructName(attr, enumName);
            key != enumName && st != enumName && key != st
  {
    var key := KeyEnumName(DefaultBaseAttr, enumName);
    var st := StructName(attr, enumName);
    assert key[|enumName|..] == KeySuffix;
    assert st[|enumName|..] == StructMapSuffix;
  }
}
