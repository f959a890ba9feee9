/**
 * The helpers shared by the map and struct generators: the key enum, the
 * in-scope / out-of-scope split, the per-variant entries every generated
 * `match` is built from, and the where-clause bound augmentation.
 */
module Common {
  import opened Wrappers
  import opened Attrs
  import opened Syntax

  /** The derives a key enum gets before the user's own: what the chosen store needs of its key. */
  function KeyDerives(t: MapType): seq<string> {
    match t
    case HashMap => ["Debug", "PartialEq", "Eq", "Hash"]
    case BTreeMap => ["Debug", "PartialEq", "Eq", "PartialOrd", "Ord", "Hash"]
    case Struct => ["Debug"]
  }

  /** The key-enum variant for one enum variant: named by `key_name`, renamed for serde iff a `serde` override is given. */
  function KeyVariantOf(v: Variant): (r: KeyVariant)
    ensures r.name == KeyName(v.keyAttr, v.ident)
    ensures r.serdeRename.Some? <==> v.keyAttr.serde.Some?
    ensures r.serdeRename.Some? ==> r.serdeRename == v.keyAttr.serde
  {
    KeyVariant(KeyName(v.keyAttr, v.ident), v.keyAttr.serde)
  }

  /**
   * `generate_key_enum`: one key per variant, in declaration order, with
   * the visibility of the `VariantStore` attribute and the derives the map
   * type needs followed by the user's.
   */
  function GenerateKeyEnum(mapType: MapType, base: BaseAttr, variants: seq<Variant>, keyEnumName: string): (r: Item)
    ensures r.KeyEnumDef? && r.name == keyEnumName
    ensures r.visibility == RenderedVisibility(base.visibility)
    ensures r.derives == KeyDerives(mapType) + KeysDerive(base).UnwrapOr([])
    ensures |r.variants| == |variants|
    ensures forall i :: 0 <= i < |variants| ==> r.variants[i] == KeyVariantOf(variants[i])
  {
    var keys := seq(|variants|, i requires 0 <= i < |variants| => KeyVariantOf(variants[i]));
    KeyEnumDef(RenderedVisibility(base.visibility), KeyDerives(mapType) + KeysDerive(base).UnwrapOr([]), keyEnumName, keys)
  }

  /** The position of a key name among the key-enum variants, if it is one of them. */
  function KeyIndex(keys: seq<KeyVariant>, name: string): (r: Option<nat>)
    ensures r.Some? ==> r.value < |keys| && keys[r.value].name == name
    ensures r.Some? ==> forall j :: 0 <= j < r.value ==> keys[j].name != name
    ensures r.None? <==> forall j :: 0 <= j < |keys| ==> keys[j].name != name
  {
    if keys == [] then None
    else if keys[0].name == name then Some(0)
    else
      match KeyIndex(keys[1..], name)
      case Some(j) => Some(j + 1)
      case None => None
  }

  /** No two variants share a key name: the key enum then declares each name once. */
  ghost predicate KeyNamesDistinct(variants: seq<Variant>) {
    forall i, j :: 0 <= i < j < |variants| ==>
      KeyName(variants[i].keyAttr, variants[i].ident) != KeyName(variants[j].keyAttr, variants[j].ident)
  }

  /** Variant identifiers are distinct, as in any enum that compiles. */
  ghost predicate IdentsDistinct(variants: seq<Variant>) {
    forall i, j :: 0 <= i < j < |variants| ==> variants[i].ident != variants[j].ident
  }

  /** Without `code` overrides the key names are the identifiers, so they are distinct. */
  lemma DefaultKeyNamesDistinct(variants: seq<Variant>)
    requires IdentsDistinct(variants)
    requires forall i :: 0 <= i < |variants| ==> variants[i].keyAttr.code.None?
    ensures KeyNamesDistinct(variants)
  {
  }

  /**
   * The key of variant `i` is the `i`-th key-enum variant. The derived
   * `Ord` of the key enum, which a BTree store sorts by, therefore follows
   * the declaration order of the enum's variants.
   */
  lemma {:induction false} KeyIndexIsDeclarationIndex(mapType: MapType, base: BaseAttr, variants: seq<Variant>, keyEnumName: string, i: nat)
    requires KeyNamesDistinct(variants) && i < |variants|
    ensures KeyIndex(GenerateKeyEnum(mapType, base, variants, keyEnumName).variants,
                     KeyName(variants[i].keyAttr, variants[i].ident)) == Some(i)
  {
    var keys := GenerateKeyEnum(mapType, base, variants, keyEnumName).variants;
    var name := KeyName(variants[i].keyAttr, variants[i].ident);
    assert keys[i].name == name;
  }

  /**
   * `in_or_out_scope`: the pair (outside the anonymous const, inside it).
   * Exactly one side holds the item: the inside one iff the visibility is
   * `out-of-scope`.
   */
  function InOrOutScope<T>(visibility: OptionalVisibility, item: T): (r: (Option<T>, Option<T>))
    ensures r.0.Some? <==> !visibility.OutOfScope?
    ensures r.1.Some? <==> visibility.OutOfScope?
    ensures r.0 == Some(item) || r.1 == Some(item)
  {
    if visibility.OutOfScope? then (None, Some(item)) else (Some(item), None)
  }

  /** What `enum_entries_map_to` hands its closure for one variant. */
  datatype Entry = Entry(enumName: string, variantName: string, skipFields: Option<RestPattern>, keyEnumName: string, keyName: string)

  /** The entry of one variant: `(..)` is skipped exactly when the variant has fields. */
  function EntryOf(enumName: string, v: Variant, keyEnumName: string): (r: Entry)
    ensures r.enumName == enumName && r.variantName == v.ident && r.keyEnumName == keyEnumName
    ensures r.skipFields.Some? <==> v.fieldCount > 0
    ensures r.keyName == KeyName(v.keyAttr, v.ident)
  {
    Entry(enumName, v.ident, if v.fieldCount > 0 then Some(AnyFields) else None, keyEnumName, KeyName(v.keyAttr, v.ident))
  }

  /** `Enum::Variant` or `Enum::Variant(..)`, from an entry. */
  function PatternOf(e: Entry): VariantPattern {
    VariantPattern(e.enumName, e.variantName, e.skipFields)
  }

  /** `KeyEnum::Key`, from an entry. */
  function KeyPathOf(e: Entry): KeyPath {
    KeyPath(e.keyEnumName, e.keyName)
  }

  /** `enum_entries_map_to`: the closure applied to each variant's entry, in declaration order. */
  function EnumEntriesMapTo<T>(enumName: string, variants: seq<Variant>, keyEnumName: string, to: Entry -> T): (r: seq<T>)
    ensures |r| == |variants|
    ensures forall i :: 0 <= i < |variants| ==> r[i] == to(EntryOf(enumName, variants[i], keyEnumName))
  {
    if variants == [] then []
    else [to(EntryOf(enumName, variants[0], keyEnumName))] + EnumEntriesMapTo(enumName, variants[1..], keyEnumName, to)
  }

  /** A predicate with one more bound when it bounds a type; a lifetime predicate is left alone. */
  function AddBound(p: WherePredicate, theTrait: string): WherePredicate {
    match p
    case TypePredicate(bounded, bounds) => TypePredicate(bounded, bounds + [theTrait])
    case LifetimePredicate(_, _) => p
  }

  /**
   * The clause `where_clause_add_trait` returns: the same predicates in the
   * same order, each type predicate with the trait appended to its bounds.
   */
  function WithTrait(wc: WhereClause, theTrait: string): (r: WhereClause)
    ensures |r.predicates| == |wc.predicates| && r.trailingComma == wc.trailingComma
    ensures forall i :: 0 <= i < |wc.predicates| && wc.predicates[i].LifetimePredicate? ==> r.predicates[i] == wc.predicates[i]
    ensures forall i :: 0 <= i < |wc.predicates| && wc.predicates[i].TypePredicate? ==>
              r.predicates[i].TypePredicate? && r.predicates[i].bounded == wc.predicates[i].bounded &&
              r.predicates[i].bounds == wc.predicates[i].bounds + [theTrait]
  {
    WhereClause(seq(|wc.predicates|, i requires 0 <= i < |wc.predicates| => AddBound(wc.predicates[i], theTrait)), wc.trailingComma)
  }

  /** `where_clause_add_trait`: clone the clause, then push the trait onto each type predicate's bounds. */
  method WhereClauseAddTrait(wc: WhereClause, theTrait: string) returns (r: WhereClause)
    ensures r == WithTrait(wc, theTrait)
  {
    var preds := wc.predicates;
    var cloned := new WherePredicate[|preds|](i requires 0 <= i < |preds| => preds[i]);
    for i := 0 to cloned.Length
      invariant forall j :: 0 <= j < i ==> cloned[j] == AddBound(preds[j], theTrait)
      invariant forall j :: i <= j < cloned.Length ==> cloned[j] == preds[j]
    {
      match cloned[i]
      case TypePredicate(bounded, bounds) =>
        cloned[i] := TypePredicate(bounded, bounds + [theTrait]);
      case LifetimePredicate(_, _) =>
    }
    r := WhereClause(cloned[..], wc.trailingComma);
  }

  /**
   * A generated `match`: the target of the first arm whose pattern
   * carries the name, where `nameOf` reads the name off a pattern.
   */
  function Select<P, T>(arms: seq<(P, T)>, nameOf: P -> string, name: string): (r: Option<T>)
    ensures r.Some? <==> exists i :: 0 <= i < |arms| && nameOf(arms[i].0) == name
  {
    if arms == [] then None
    else if nameOf(arms[0].0) == name then Some(arms[0].1)
    else
      var rest := Select(arms[1..], nameOf, name);
      assert forall i :: 1 <= i < |arms| ==> arms[i] == arms[1..][i - 1];
      rest
  }

  /** The variant an arm of a `match` on an enum value names. */
  function VariantLabel(p: VariantPattern): string {
    p.variantName
  }

  /** The key an arm of a `match` on a key names. */
  function KeyLabel(p: KeyPath): string {
    p.keyName
  }

  /**
   * Arms built one per variant select, for a value of variant `i`, the
   * `i`-th arm: the match reaches the code generated for that variant.
   */
  lemma {:induction false} VariantArmSelected<T>(arms: seq<(VariantPattern, T)>, variants: seq<Variant>, i: nat)
    requires |arms| == |variants| && IdentsDistinct(variants) && i < |variants|
    requires forall j :: 0 <= j < |arms| ==> arms[j].0.variantName == variants[j].ident
    ensures Select(arms, VariantLabel, variants[i].ident) == Some(arms[i].1)
  {
    if i > 0 {
      assert VariantLabel(arms[0].0) != variants[i].ident;
      VariantArmSelected(arms[1..], variants[1..], i - 1);
    }
  }

  /** Arms built one per variant select, for the key of variant `i`, the `i`-th arm. */
  lemma {:induction false} KeyArmSelected<T>(arms: seq<(KeyPath, T)>, variants: seq<Variant>, i: nat)
    requires |arms| == |variants| && KeyNamesDistinct(variants) && i < |variants|
    requires forall j :: 0 <= j < |arms| ==> arms[j].0.keyName == KeyName(variants[j].keyAttr, variants[j].ident)
    ensures Select(arms, KeyLabel, KeyName(variants[i].keyAttr, variants[i].ident)) == Some(arms[i].1)
  {
    if i > 0 {
      assert KeyLabel(arms[0].0) != KeyName(variants[i].keyAttr, variants[i].ident);
      KeyArmSelected(arms[1..], variants[1..], i - 1);
    }
  }

  /** An optional generated item as a list of items: `Some(item)` as one, `None` as none. */
  function Opt(item: Option<Item>): (r: seq<Item>)
    ensures item.Some? ==> r == [item.value]
    ensures item.None? ==> r == []
  {
    match item
    case Some(x) => [x]
    case None => []
  }
}
