/**
 * The generator for the library-backed stores (`HashMap`, `BTreeMap`): the
 * key enum, the `use` of the store's module, `MapValue`, and the key trait
 * the store demands.
 */
module Maps {
  import opened Wrappers
  import opened Attrs
  import opened Syntax
  import opened Common
  import Structs

  /**
   * `generate_impl_key_trait_for_key_enum`: `HashKey` for a hash map,
   * `OrdHashKey` for a BTree map, and no impl for a struct.
   */
  function GenerateImplKeyTraitForKeyEnum(mapType: MapType, keyEnumName: string): (r: Option<Item>)
    ensures r.None? <==> mapType.Struct?
    ensures mapType.HashMap? ==> r == Some(KeyTraitImpl(HashKey, keyEnumName))
    ensures mapType.BTreeMap? ==> r == Some(KeyTraitImpl(OrdHashKey, keyEnumName))
  {
    match mapType
    case HashMap => Some(KeyTraitImpl(HashKey, keyEnumName))
    case BTreeMap => Some(KeyTraitImpl(OrdHashKey, keyEnumName))
    case Struct => None
  }

  /** The traits each key trait requires: `Eq + Hash`, and `Ord + Eq + Hash`. */
  function Supertraits(k: KeyTrait): set<string> {
    match k
    case HashKey => {"Eq", "Hash"}
    case OrdHashKey => {"Ord", "Eq", "Hash"}
  }

  /** The traits a derived trait needs derived beside it. */
  function DeriveRequires(t: string): set<string> {
    if t == "Eq" then {"PartialEq"}
    else if t == "Ord" then {"PartialOrd", "Eq"}
    else if t == "PartialOrd" then {"PartialEq"}
    else {}
  }

  /**
   * The key enum's fixed derives provide every trait its store's key
   * trait requires, together with what those derives need in turn, so
   * the empty key-trait impl is accepted.
   */
  lemma KeyDerivesMeetKeyTrait(mapType: MapType, keyEnumName: string)
    ensures var impl := GenerateImplKeyTraitForKeyEnum(mapType, keyEnumName);
            var derived := set d | d in KeyDerives(mapType);
            (impl.Some? ==> Supertraits(impl.value.keyTrait) <= derived) &&
            (forall d :: d in derived ==> DeriveRequires(d) <= derived)
  {
    var derived := set d | d in KeyDerives(mapType);
    match mapType
    case HashMap =>
      assert "Eq" in derived && "Hash" in derived && "PartialEq" in derived;
    case BTreeMap =>
      assert "Eq" in derived && "Hash" in derived && "Ord" in derived;
      assert "PartialEq" in derived && "PartialOrd" in derived;
    case Struct =>
  }

  /**
   * `generate_impl_map_value`: `Map` is the library store of the key enum
   * and the enum, `make_map` its `default()`, and `to_key` maps each
   * variant, whatever its payload, to its key.
   */
  function GenerateImplMapValue(input: DeriveInput, variants: seq<Variant>, keyEnumName: string): (r: Item)
    ensures r.MapValueImpl? && r.key == keyEnumName && r.enumType == Structs.EnumTypeRef(input)
    ensures r.mapType == LibraryMap(keyEnumName, Structs.EnumTypeRef(input))
    ensures |r.toKeyArms| == |variants|
    ensures forall i :: 0 <= i < |variants| ==>
              r.toKeyArms[i] == (PatternOf(EntryOf(input.ident, variants[i], keyEnumName)),
                                 KeyPath(keyEnumName, KeyName(variants[i].keyAttr, variants[i].ident)))
  {
    MapValueImpl(Structs.EnumTypeRef(input), keyEnumName, LibraryMap(keyEnumName, Structs.EnumTypeRef(input)),
                 EnumEntriesMapTo(input.ident, variants, keyEnumName, (e: Entry) => (PatternOf(e), KeyPathOf(e))))
  }

  /**
   * The generated `to_key` sends a value of variant `i` to the `i`-th key
   * of the generated key enum: the position the BTree store orders by.
   */
  lemma ToKeyIsDeclarationIndex(mapType: MapType, base: BaseAttr, input: DeriveInput, variants: seq<Variant>, keyEnumName: string, i: nat)
    requires IdentsDistinct(variants) && KeyNamesDistinct(variants) && i < |variants|
    ensures var key := Select(GenerateImplMapValue(input, variants, keyEnumName).toKeyArms, VariantLabel, variants[i].ident);
            key.Some? && key.value.keyEnumName == keyEnumName &&
            KeyIndex(GenerateKeyEnum(mapType, base, variants, keyEnumName).variants, key.value.keyName) == Some(i)
  {
    VariantArmSelected(GenerateImplMapValue(input, variants, keyEnumName).toKeyArms, variants, i);
    KeyIndexIsDeclarationIndex(mapType, base, variants, keyEnumName, i);
  }

  /**
   * The inside part of a map expansion: the `use` of the store's module,
   * the key enum if it stays in scope, `MapValue`, and the key-trait impl.
   * None of them is a struct.
   */
  function AssembleInside(use_: Item, head: seq<Item>, mapValue: Item, keyTrait: Option<Item>): (r: seq<Item>)
    requires use_.UseMapModule? && mapValue.MapValueImpl?
    requires forall it :: it in head ==> it.KeyEnumDef?
    requires keyTrait.Some? ==> keyTrait.value.KeyTraitImpl?
    ensures |r| >= 2 && r[0] == use_ && (|head| > 0 ==> r[1] == head[0])
    ensures mapValue in r && (keyTrait.Some? ==> keyTrait.value in r)
    ensures forall it :: it in r ==> !it.StructDef? && (it.KeyEnumDef? ==> it in head)
  {
    var r := [use_] + head + [mapValue] + Opt(keyTrait);
    assert forall it :: it in r ==> it == use_ || it in head || it == mapValue || it in Opt(keyTrait);
    r
  }

  /**
   * `generate_map_code`: `Err(())` unless the input is an enum. For an
   * enum, the key enum goes outside or inside the anonymous const by the
   * visibility; the inside part starts with the `use` of the store's
   * module, then holds the key enum if it stays inside, `MapValue`, and
   * the key-trait impl.
   */
  function GenerateMapCode(input: DeriveInput, mapType: MapType, keyEnumName: string): (r: Result<(Option<seq<Item>>, Option<seq<Item>>), ()>)
    requires input.baseAttr.Ok?
    ensures r.Err? <==> !input.data.EnumData?
    ensures r.Ok? ==> r.value.1.Some? && |r.value.1.value| >= 2
    ensures r.Ok? ==> r.value.1.value[0] == UseMapModule(ModulePath(mapType))
    ensures r.Ok? ==> var keyEnum := GenerateKeyEnum(mapType, input.baseAttr.value, input.data.variants, keyEnumName);
              if input.baseAttr.value.visibility.OutOfScope?
              then r.value.0 == None && r.value.1.value[1] == keyEnum
              else r.value.0 == Some([keyEnum]) && keyEnum !in r.value.1.value
    ensures r.Ok? ==> var inside := r.value.1.value;
              GenerateImplMapValue(input, input.data.variants, keyEnumName) in inside &&
              (mapType.Struct? || GenerateImplKeyTraitForKeyEnum(mapType, keyEnumName).value in inside)
    ensures r.Ok? ==> forall it :: it in r.value.1.value ==> !it.StructDef?
  {
    var base := input.baseAttr.value;
    match input.data
    case EnumData(variants) =>
      var keyEnum := GenerateKeyEnum(mapType, base, variants, keyEnumName);
      var mapValue := GenerateImplMapValue(input, variants, keyEnumName);
      var keyTrait := GenerateImplKeyTraitForKeyEnum(mapType, keyEnumName);
      var (outside, insideOpt) := InOrOutScope(base.visibility, [keyEnum]);
      var insideHead := if insideOpt.Some? then insideOpt.value else [];
      var inside := AssembleInside(UseMapModule(ModulePath(mapType)), insideHead, mapValue, keyTrait);
      Ok((outside, Some(inside)))
    case _ => Err(())
  }
}
