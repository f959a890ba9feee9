/**
 * The parameters of the `VariantStore` derive, as the attribute parser
 * hands them over: the `key_name` attribute of a variant, the
 * `VariantStore(datastruct, keys, visibility)` attribute, the
 * `VariantStruct(name, derive, features)` attribute, and the map type.
 *
 * Names are strings; every name is taken to be a valid Rust identifier.
 */
module Attrs {
  import opened Wrappers

  /** `#[key_name(code = "..", serde = "..")]` on a variant; both parts optional. */
  datatype KeyNameAttr = KeyNameAttr(code: Option<string>, serde: Option<string>)

  /** `KeyNameAttr::key_name`: the `code` override when given, else the variant's identifier. */
  function KeyName(attr: KeyNameAttr, ident: string): (r: string)
    ensures attr.code.Some? ==> r == attr.code.value
    ensures attr.code.None? ==> r == ident
  {
    attr.code.UnwrapOr(ident)
  }

  /** `syn::Visibility`. */
  datatype Visibility = Inherited | Public | Crate | Restricted(path: string)

  /** The `visibility` parameter: `out-of-scope`, or an ordinary visibility. */
  datatype OptionalVisibility = OutOfScope | Specified(vis: Visibility)

  /** `OptionalVisibility::default`: private, that is inherited. */
  const DefaultVisibility: OptionalVisibility := Specified(Inherited)

  /** `ToTokens for OptionalVisibility`: out-of-scope items are written with inherited visibility. */
  function RenderedVisibility(v: OptionalVisibility): (r: Visibility)
    ensures v.OutOfScope? ==> r == Inherited
    ensures v.Specified? ==> r == v.vis
  {
    match v
    case OutOfScope => Inherited
    case Specified(vis) => vis
  }

  /** The right-hand side of `visibility = ..`. */
  datatype Lit = StrLit(text: string) | OtherLit
  datatype Expr = LitExpr(lit: Lit) | OtherExpr

  /** The attribute argument `visibility` is given as. */
  datatype Meta = NameValue(value: Expr) | PathMeta | ListMeta

  /** The attribute parser's errors. */
  datatype AttrError =
    | ExpectedNameValue
    | UnexpectedExprType
    | UnexpectedLitType
    | InvalidVisibility(text: string)

  const OutOfScopeText: string := "out-of-scope"

  /**
   * `parse_visibility`: the argument must be `visibility = "<string>"`;
   * the string `out-of-scope` gives `OutOfScope`, any other string is
   * handed to syn's visibility parser (`synVisibility`), whose failure is
   * an error.
   */
  function ParseVisibility(meta: Meta, synVisibility: string -> Option<Visibility>): (r: Result<OptionalVisibility, AttrError>)
    ensures !meta.NameValue? ==> r == Err(ExpectedNameValue)
    ensures meta.NameValue? && !meta.value.LitExpr? ==> r == Err(UnexpectedExprType)
    ensures meta.NameValue? && meta.value.LitExpr? && !meta.value.lit.StrLit? ==> r == Err(UnexpectedLitType)
    ensures r == Ok(OutOfScope) <==> meta == NameValue(LitExpr(StrLit(OutOfScopeText)))
    ensures forall v :: r == Ok(Specified(v)) <==>
              (meta.NameValue? && meta.value.LitExpr? && meta.value.lit.StrLit? &&
               meta.value.lit.text != OutOfScopeText && synVisibility(meta.value.lit.text) == Some(v))
  {
    match meta
    case NameValue(value) =>
      (match value
       case LitExpr(lit) =>
         (match lit
          case StrLit(text) =>
            if text == OutOfScopeText then Ok(OutOfScope)
            else
              (match synVisibility(text)
               case Some(vis) => Ok(Specified(vis))
               case None => Err(InvalidVisibility(text)))
          case OtherLit => Err(UnexpectedLitType))
       case OtherExpr => Err(UnexpectedExprType))
    case _ => Err(ExpectedNameValue)
  }

  /** `keys(name = .., derive(..))`. */
  datatype BaseKeysAttr = BaseKeysAttr(name: Option<string>, derive: Option<seq<string>>)

  /** `#[VariantStore(datastruct = .., keys(..), visibility = ..)]`; every part optional. */
  datatype BaseAttr = BaseAttr(datastruct: Option<string>, keys: Option<BaseKeysAttr>, visibility: OptionalVisibility)

  /** The parameters when the attribute is absent. */
  const DefaultBaseAttr: BaseAttr := BaseAttr(None, None, DefaultVisibility)

  /** `BaseAttr::keys_name`: `keys(name = ..)` when given, else the default passed in. */
  function KeysName(base: BaseAttr, default: string): (r: string)
    ensures base.keys.Some? && base.keys.value.name.Some? ==> r == base.keys.value.name.value
    ensures base.keys.None? || base.keys.value.name.None? ==> r == default
  {
    match base.keys
    case Some(keys) => keys.name.UnwrapOr(default)
    case None => default
  }

  /** `BaseAttr::keys_derive`: the user's extra derives for the key enum, if any were given. */
  function KeysDerive(base: BaseAttr): (r: Option<seq<string>>)
    ensures r.Some? <==> base.keys.Some? && base.keys.value.derive.Some?
    ensures r.Some? ==> r.value == base.keys.value.derive.value
  {
    match base.keys
    case Some(keys) => keys.derive
    case None => None
  }

  /** The three stores a derive can generate code for. */
  datatype MapType = HashMap | BTreeMap | Struct

  /** `MapType::default`. */
  const DefaultMapType: MapType := HashMap

  /** The lower-case name each map type is parsed from. */
  function Spelling(t: MapType): string {
    match t
    case HashMap => "hashmap"
    case BTreeMap => "btreemap"
    case Struct => "structmap"
  }

  /**
   * `char::to_lowercase` on the letters that matter: ASCII capitals. No
   * other character lower-cases to a letter of the three spellings, so
   * the parse below gives the same verdict as full Unicode lower-casing.
   */
  function LowerChar(c: char): (r: char)
    ensures 'A' <= c <= 'Z' ==> r != c && 'a' <= r <= 'z'
    ensures !('A' <= c <= 'Z') ==> r == c
  {
    if 'A' <= c <= 'Z' then (c as int + 32) as char else c
  }

  /** `str::to_lowercase`, one character at a time. */
  function ToLowercase(s: string): (r: string)
    ensures |r| == |s| && forall i :: 0 <= i < |s| ==> r[i] == LowerChar(s[i])
  {
    if s == [] then [] else [LowerChar(s[0])] + ToLowercase(s[1..])
  }

  const InvalidMapTypeMessage: string := "Invalid 'map' argument, available {{ \"hashmap\", \"btreemap\" }}"

  /** `TryFrom<&String> for MapType`: one of the three names, in any letter case; anything else is an error. */
  function TryFrom(s: string): (r: Result<MapType, string>)
    ensures r.Err? ==> r.error == InvalidMapTypeMessage
  {
    var lower := ToLowercase(s);
    if lower == "hashmap" then Ok(HashMap)
    else if lower == "btreemap" then Ok(BTreeMap)
    else if lower == "structmap" then Ok(Struct)
    else Err(InvalidMapTypeMessage)
  }

  /** Case-insensitive equality with a lower-case word, defined letter by letter. */
  ghost predicate MatchesIgnoringCase(s: string, word: string) {
    |s| == |word| && forall i :: 0 <= i < |s| ==> s[i] == word[i] || LowerChar(s[i]) == word[i]
  }

  /**
   * `TryFrom` accepts exactly the strings that spell a map type's name
   * in some mix of upper and lower case, and gives that map type.
   */
  lemma TryFromIgnoresCase(s: string, t: MapType)
    ensures TryFrom(s) == Ok(t) <==> MatchesIgnoringCase(s, Spelling(t))
  {
    var w := Spelling(t);
    var lower := ToLowercase(s);
    assert forall i :: 0 <= i < |w| ==> !('A' <= w[i] <= 'Z');
    if MatchesIgnoringCase(s, w) {
      assert lower == w by {
        forall i | 0 <= i < |s| ensures lower[i] == w[i] {
          if s[i] == w[i] { assert LowerChar(w[i]) == w[i]; }
        }
      }
    }
    if TryFrom(s) == Ok(t) {
      assert lower == w by {
        match t
        case HashMap =>
        case BTreeMap =>
          assert lower != "hashmap";
        case Struct =>
          assert lower != "hashmap" && lower != "btreemap";
      }
      forall i | 0 <= i < |s| ensures s[i] == w[i] || LowerChar(s[i]) == w[i] {
        assert lower[i] == LowerChar(s[i]);
      }
    }
  }

  /** The names the documentation gives for `datastruct`. */
  function DocumentedName(t: MapType): string {
    match t
    case HashMap => "HashMap"
    case BTreeMap => "BTreeMap"
    case Struct => "StructMap"
  }

  /** Each documented name parses to its map type. */
  lemma DocumentedNameParses(t: MapType)
    ensures TryFrom(DocumentedName(t)) == Ok(t)
  {
    TryFromIgnoresCase(DocumentedName(t), t);
  }

  /** A name that spells none of the three map types, in any letter case, is refused. */
  lemma OtherNameRefused(s: string)
    ensures TryFrom(s).Err? <==> forall t: MapType :: !MatchesIgnoringCase(s, Spelling(t))
  {
    forall t: MapType
      ensures TryFrom(s) == Ok(t) <==> MatchesIgnoringCase(s, Spelling(t))
    {
      TryFromIgnoresCase(s, t);
    }
  }

  /**
   * `BaseAttr::map_type`: `HashMap` when `datastruct` is absent; an
   * invalid name makes `unwrap` panic, modelled as the error it unwraps.
   */
  function MapTypeOf(base: BaseAttr): (r: Result<MapType, string>)
    ensures base.datastruct.None? ==> r == Ok(DefaultMapType)
    ensures base.datastruct.Some? ==> r == TryFrom(base.datastruct.value)
  {
    match base.datastruct
    case Some(name) => TryFrom(name)
    case None => Ok(DefaultMapType)
  }

  /**
   * `ToTokens for MapType`: the module of `variant_map` that holds the
   * store (`hashmap`, `btreemap`), and nothing for a `StructMap`, which is
   * generated in place. The name is all lower case, as a module path
   * must be, and read back as a `datastruct` it gives its map type again.
   */
  function ModulePath(t: MapType): (r: string)
    ensures t.Struct? <==> r == []
    ensures r != [] ==> TryFrom(r) == Ok(t)
    ensures r == ToLowercase(r)
  {
    match t
    case HashMap =>
      assert ToLowercase("hashmap") == "hashmap";
      "hashmap"
    case BTreeMap =>
      assert ToLowercase("btreemap") == "btreemap";
      "btreemap"
    case Struct => ""
  }

  /** `features(serialize, deserialize, index)`: each word present or not. */
  datatype StructMapFeatures = StructMapFeatures(serialize: Option<()>, deserialize: Option<()>, index: Option<()>)

  /** `use_serialize`, `use_deserialize`, `use_index`: the word was present. */
  predicate UseSerialize(f: StructMapFeatures) { f.serialize.Some? }
  predicate UseDeserialize(f: StructMapFeatures) { f.deserialize.Some? }
  predicate UseIndex(f: StructMapFeatures) { f.index.Some? }

  /** `#[VariantStruct(name = .., derive(..), features(..))]`, with the `VariantStore` parameters. */
  datatype StructAttr = StructAttr(base: BaseAttr, name: Option<string>, derive: Option<seq<string>>, features: StructMapFeatures)

  const StructMapSuffix: string := "StructMap"

  /** `StructAttr::struct_name`: the `name` override when given, else the enum's name followed by `StructMap`. */
  function StructName(attr: StructAttr, enumName: string): (r: string)
    ensures attr.name.Some? ==> r == attr.name.value
    ensures attr.name.None? ==> r == enumName + StructMapSuffix
  {
    match attr.name
    case Some(name) => name
    case None => enumName + StructMapSuffix
  }
}
