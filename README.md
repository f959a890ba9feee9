# variant-map, modelled in Dafny

`variant-map` stores the values of a Rust enum in a map keyed by variant.
A `MapValue` impl ties the enum to a payload-free key enum through
`to_key`. A store then holds at most one value per variant. The
`VariantStore` derive generates the key enum, the `MapValue` impl and,
on request, a `StructMap`: a record with one `Option<Enum>` field per
variant.

The model has two layers.

**The runtime stores** are classes that own their state.

- `HashMapStore.Map`, `BTreeMapStore.Map` and `EnumMapStore.EnumMap` wrap a std map (`var inner: map<K, V>`).
- `StructMapStore.StructMap` owns an `array<Option<V>>`, one slot per variant.
- `to_key` is the constant `toKey` (or `variantOf`, a field index, for the `StructMap`).
- The invariant these stores keep is *key consistency*: every stored value sits at its own `to_key`.
  - `insert`, `remove` and deserialisation preserve it.
  - `Map::new`, `From` and writes through `IndexMut` need not.
- Serialisation writes only the values, as a sequence. Deserialisation (`Collect`, `Absorb`) re-inserts each element at its own key, and the last duplicate wins.
- The round trip is proved for every store.

**The generator** is a set of pure functions over abstract syntax (module `Syntax`).

- Its input is the variants (identifier, field count, `key_name` overrides), the generics and the parsed attribute records.
- Its output is the generated items as datatypes, not token text.
- A generated `match` is given meaning by `Common.Select`, the first arm naming the variant or key. This lets the model state that `to_key`, `insert`, `get` and the deserialiser all reach the same field.
- `Derive.Derive` is the macro entry point: default names, dispatch on the map type, the non-enum error, and what goes before and inside the anonymous `const _`.

Where a doc comment and the code disagree, the model follows the code:

- The deserialiser's visitor is named after the key enum (structs.rs:152), not the enum as the comment at structs.rs:142 says.
- `in_or_out_scope` returns (outside the const, inside the const). `out-of-scope` places the item inside.
- The map-type error message is not a format string, so it keeps its doubled braces.

## Model

| member | source | states |
|---|---|---|
| VariantStore.Collect | crates/variant-map/src/hashmap/lib.rs:107-120 | the map read back from a sequence is key-consistent, holds exactly the keys of the elements, and only values taken from the sequence |
| VariantStore.CollectLastWins | crates/variant-map/src/hashmap/lib.rs:114-117 | a key holds the last element of the sequence with that key; a duplicate is never an error |
| VariantStore.RoundTrip | crates/variant-map/src/hashmap/lib.rs:75-120 | a key-consistent map written as any sequence of exactly its values is rebuilt exactly when read back |
| VariantStore.ListingRoundTrip | crates/variant-map/src/hashmap/lib.rs:75-120 | a listing of the value at each stored key, each key once, holds every stored value and nothing else, and reads a key-consistent map back to itself |
| HashMapStore.Map.constructor | crates/variant-map/src/hashmap/lib.rs:59-67 | `default()` is the empty map, which is key-consistent |
| HashMapStore.Map.Get | crates/variant-map/src/hashmap/lib.rs:139-147 | `get` finds a value iff the key is stored; in a consistent map the value found belongs to that key |
| HashMapStore.Map.Insert | crates/variant-map/src/hashmap/lib.rs:31-38 | upsert at `to_key(value)`, returning the displaced value or None; all other keys unchanged; consistency preserved |
| HashMapStore.Map.Remove | crates/variant-map/src/hashmap/lib.rs:150-157 | returns the stored value or None and deletes only that key; consistency preserved |
| HashMapStore.Map.Index | crates/variant-map/src/hashmap/lib.rs:159-168 | defined only for a stored key (else `unwrap` panics); gives what `get` finds |
| HashMapStore.Map.IndexMut | crates/variant-map/src/hashmap/lib.rs:170-177 | defined only for a stored key; the map stays consistent iff the written value belongs to that key |
| HashMapStore.Map.Serialize | crates/variant-map/src/hashmap/lib.rs:75-86 | announces `len()` and emits, for each stored key visited once, the value stored there; read back, a key-consistent map gives the same map |
| HashMapStore.Map.VisitSeq | crates/variant-map/src/hashmap/lib.rs:107-120 | the loop builds `Collect` of the elements: each at its own key, the last duplicate winning |
| EnumMapStore.EnumMap.constructor | crates/enum-map/src/enum_map.rs:61-69 | `default()` is the empty map |
| EnumMapStore.EnumMap.Get | crates/enum-map/src/enum_map.rs:141-150 | `get` finds a value iff the key is stored; in a consistent map the value belongs to that key |
| EnumMapStore.EnumMap.Insert | crates/enum-map/src/enum_map.rs:23-30 | upsert at `to_key(value)` returning the previous occupant; other keys untouched; consistency preserved |
| EnumMapStore.EnumMap.Remove | crates/enum-map/src/enum_map.rs:152-159 | returns the stored value or None and deletes only that key |
| EnumMapStore.EnumMap.Index | crates/enum-map/src/enum_map.rs:161-170 | defined only for a stored key (an absent key panics) |
| EnumMapStore.EnumMap.IndexMut | crates/enum-map/src/enum_map.rs:172-179 | defined only for a stored key; consistency kept iff the new value belongs to the key |
| EnumMapStore.EnumMap.Serialize | crates/enum-map/src/enum_map.rs:77-88 | announces `len()` and emits, for each stored key visited once, the value stored there; read back, a key-consistent map gives the same map |
| EnumMapStore.EnumMap.VisitSeq | crates/enum-map/src/enum_map.rs:109-122 | keys each element by `to_key`, later duplicates replacing earlier ones |
| BTreeMapStore.SortedKeys | crates/variant-map/src/btreemap/lib.rs:179-188 | lists a key set once each, in strictly ascending key order |
| BTreeMapStore.Map.constructor | crates/variant-map/src/btreemap/lib.rs:60-68 | `default()` is the empty map |
| BTreeMapStore.Map.Get | crates/variant-map/src/btreemap/lib.rs:139-148 | `get` finds a value iff the key is stored |
| BTreeMapStore.Map.Insert | crates/variant-map/src/btreemap/lib.rs:32-39 | upsert at `to_key(value)` returning the displaced value; other keys unchanged; consistency preserved |
| BTreeMapStore.Map.Remove | crates/variant-map/src/btreemap/lib.rs:150-157 | returns the stored value or None and deletes only that key |
| BTreeMapStore.Map.Index | crates/variant-map/src/btreemap/lib.rs:159-168 | defined only for a stored key |
| BTreeMapStore.Map.IndexMut | crates/variant-map/src/btreemap/lib.rs:170-177 | defined only for a stored key; consistency kept iff the new value belongs to the key |
| BTreeMapStore.Map.Entries | crates/variant-map/src/btreemap/lib.rs:179-188 | iterating `&Map` yields every stored (key, value) pair once, in strictly ascending key order |
| BTreeMapStore.Map.Serialize | crates/variant-map/src/btreemap/lib.rs:76-87 | announces `len()` and emits the value stored at each key, the keys visited once each in ascending order for any map; for a key-consistent map the values' own keys ascend and it reads back to the same map |
| BTreeMapStore.Map.VisitSeq | crates/variant-map/src/btreemap/lib.rs:108-120 | starts empty and inserts each element at its key, the last duplicate winning |
| StructMapStore.Empty | crates/variant-map-derive/src/structs.rs:350-359 | the `Default` record: one slot per variant, every slot None |
| StructMapStore.Present | crates/variant-map-derive/src/structs.rs:105-109 | what `serialize` emits: never more values than fields, each from an occupied field |
| StructMapStore.PresentFull | crates/variant-map-derive/src/structs.rs:105-110 | the number of emitted values equals the variant count iff every field is occupied |
| StructMapStore.PresentInDeclarationOrder | crates/variant-map-derive/src/structs.rs:105-109 | in a consistent record the emitted values are in strictly ascending variant (declaration) order |
| StructMapStore.Absorb | crates/variant-map-derive/src/structs.rs:193-202 | reading back keeps the field count and keeps a consistent record consistent |
| StructMapStore.AbsorbIgnoresNone | crates/variant-map-derive/src/structs.rs:195-199 | None elements are skipped: the result depends only on the Some elements |
| StructMapStore.AbsorbSlot | crates/variant-map-derive/src/structs.rs:175-177 | a field ends holding the last element of its variant, or its old content when there is none |
| StructMapStore.RoundTrip | crates/variant-map-derive/src/structs.rs:189-202 | deserialising the serialised form of a consistent record into `default()` rebuilds the record |
| StructMapStore.StructMap.constructor | crates/variant-map-derive/src/structs.rs:371-378 | `Default` sets every field to None |
| StructMapStore.StructMap.Get | crates/variant-map-derive/src/structs.rs:312-322 | `get`/`get_mut`/`index` are total on keys and return the field's Option; an occupied field holds its own variant |
| StructMapStore.StructMap.Insert | crates/variant-map-derive/src/structs.rs:306-310 | replaces the value's own field with Some(value), returns the old content, changes no other field, and `get(to_key(v)) == Some(v)` after it |
| StructMapStore.StructMap.Remove | crates/variant-map-derive/src/structs.rs:300-304 | returns field `key` and leaves it None; other fields unchanged |
| StructMapStore.StructMap.Assign | crates/variant-map-derive/src/structs.rs:318-322 | a write through `get_mut` keeps the record consistent iff the content is None or of the field's own variant |
| StructMapStore.StructMap.Emit | crates/variant-map-derive/src/structs.rs:105-109 | the per-field `if let Some` lines emit exactly `Present` of the record |
| StructMapStore.StructMap.Serialize | crates/variant-map-derive/src/structs.rs:117-131 | as generated: announces the variant count, emits the occupied fields in order; the two agree iff every field is occupied; round trip holds |
| StructMapStore.StructMap.SerializeExact | crates/variant-map-derive/src/structs.rs:125-127 | corrected: the announced length is the number of emitted values; round trip holds |
| StructMapStore.StructMap.VisitSeq | crates/variant-map-derive/src/structs.rs:189-203 | starts from `default()` and stores each Some element in its field (last wins), skipping None; result is consistent |
| StructMapStore.LenHintMismatch | crates/variant-map-derive/src/structs.rs:125 | a two-field record holding one value announces two elements and emits one |
| Attrs.KeyName | crates/variant-map-derive/src/attrs.rs:40-45 | a variant's key name is its `code` override when given, else its identifier |
| Attrs.RenderedVisibility | crates/variant-map-derive/src/attrs.rs:117-124 | `out-of-scope` items are written with inherited (private) visibility; others with their own |
| Attrs.ParseVisibility | crates/variant-map-derive/src/attrs.rs:133-156 | each malformed form gets its error; exactly the string `out-of-scope` gives OutOfScope; any other string gives what syn parses, or an error |
| Attrs.KeysName | crates/variant-map-derive/src/attrs.rs:192-199 | `keys(name)` when given, else the default passed in |
| Attrs.KeysDerive | crates/variant-map-derive/src/attrs.rs:201-209 | user derives for the key enum exist iff `keys(derive(..))` was given |
| Attrs.ToLowercase | crates/variant-map-derive/src/attrs.rs:402 | lower-cases each ASCII capital in place and keeps every other character, so the length is kept |
| Attrs.TryFrom | crates/variant-map-derive/src/attrs.rs:398-409 | every failure carries the fixed invalid-map message |
| Attrs.TryFromIgnoresCase | crates/variant-map-derive/src/attrs.rs:401-407 | a string parses to a map type iff it spells that type's name in any mix of cases |
| Attrs.DocumentedNameParses | crates/variant-map-derive/src/attrs.rs:384-396 | the documented names `HashMap`, `BTreeMap`, `StructMap` parse to their types |
| Attrs.OtherNameRefused | crates/variant-map-derive/src/attrs.rs:401-407 | a string is refused iff it spells none of the three map names in any letter case |
| Attrs.MapTypeOf | crates/variant-map-derive/src/attrs.rs:211-217 | HashMap when `datastruct` is absent, else the parse of the name, whose failure is the panic |
| Attrs.ModulePath | crates/variant-map-derive/src/attrs.rs:411-426 | Struct renders as nothing; a rendered module name is all lower case and parses back to its own map type |
| Attrs.StructName | crates/variant-map-derive/src/attrs.rs:325-331 | the `name` override when given, else the enum's name followed by `StructMap` |
| Common.KeyVariantOf | crates/variant-map-derive/src/common.rs:21-36 | a key variant is named by `key_name` and has a serde rename iff a `serde` override was given |
| Common.GenerateKeyEnum | crates/variant-map-derive/src/common.rs:15-59 | one key per variant in declaration order, the attribute's visibility, the map type's derives followed by the user's |
| Common.KeyIndexIsDeclarationIndex | crates/variant-map-derive/src/common.rs:21-57 | with distinct key names, the key of variant i is the i-th key-enum variant, so the derived `Ord` is declaration order |
| Common.InOrOutScope | crates/variant-map-derive/src/common.rs:72-79 | exactly one side holds the item: inside the const iff `out-of-scope` |
| Common.EntryOf | crates/variant-map-derive/src/common.rs:92-110 | the `(..)` pattern is present iff the variant has fields; the key name follows `key_name` |
| Common.EnumEntriesMapTo | crates/variant-map-derive/src/common.rs:83-116 | one output per variant, in declaration order, the closure applied to that variant's entry |
| Common.WithTrait | crates/variant-map-derive/src/common.rs:119-128 | same predicate count and order; each type predicate gains the trait; lifetime predicates unchanged |
| Common.WhereClauseAddTrait | crates/variant-map-derive/src/common.rs:119-128 | the clone-and-push loop computes `WithTrait` |
| Common.VariantArmSelected | crates/variant-map-derive/src/maps.rs:101-105 | with distinct identifiers, a match built one arm per variant sends variant i to arm i |
| Common.KeyArmSelected | crates/variant-map-derive/src/structs.rs:312-316 | with distinct key names, a match on keys sends the key of variant i to arm i |
| Structs.WhereClauseAddEnumBoundAsWritten | crates/variant-map-derive/src/structs.rs:80-92 | as written: the clause with the bound added, then `, Enum<..>: bound`, or `where Enum<..>: bound` without a clause |
| Structs.WhereClauseAddEnumBoundBreaks | crates/variant-map-derive/src/structs.rs:85 | a trailing comma, or an empty where clause, makes the written clause ill-formed |
| Structs.WhereClauseAddEnumBound | crates/variant-map-derive/src/structs.rs:74-79 | corrected: every type predicate gains the bound and the enum's bound is appended; the result is always well formed |
| Structs.AsWrittenAgreesOtherwise | crates/variant-map-derive/src/structs.rs:80-92 | without a clause, or with a non-empty clause without a final comma, the written form is the corrected clause |
| Structs.FieldNames | crates/variant-map-derive/src/structs.rs:339-348 | one field per variant, in declaration order, named by `key_name` |
| Structs.GenerateImplSerialize | crates/variant-map-derive/src/structs.rs:99-133 | announces the variant count, lists every field in declaration order, and bounds the impl by `Serialize` |
| Structs.GenerateImplDeserialize | crates/variant-map-derive/src/structs.rs:145-234 | visitor named after the key enum, one extra lifetime, the `Deserialize` bound, one arm per variant into its field |
| Structs.GenerateEnumStructImpl | crates/variant-map-derive/src/structs.rs:239-325 | `remove`/`get`/`get_mut` reach the key's field; `insert` reaches the field of the value's variant |
| Structs.GenerateEnumStructCode | crates/variant-map-derive/src/structs.rs:328-380 | the struct with one field per variant of the enum's type, `Debug` plus the user's derives, and `Default` clearing every field |
| Structs.GenerateImplIndex | crates/variant-map-derive/src/structs.rs:385-452 | `index`/`index_mut` reach the same fields as `get`/`get_mut` |
| Structs.GenerateImplMapValue | crates/variant-map-derive/src/structs.rs:457-498 | `Map` is the generated struct; `to_key` maps each variant, whatever its payload, to its key |
| Structs.GeneratedArmsAgree | crates/variant-map-derive/src/structs.rs:468-477 | for variant i, `to_key`, `insert`, `get` of its key and the deserialiser all reach field i |
| Structs.GenerateStructCode | crates/variant-map-derive/src/structs.rs:10-72 | Err iff not an enum; the key enum, the struct and its `Default` go before the const (and then none of them is inside it), or head it when `out-of-scope`; the generated methods and MapValue are inside, and the generated Index/Serialize/Deserialize iff their feature |
| Maps.GenerateImplKeyTraitForKeyEnum | crates/variant-map-derive/src/maps.rs:12-28 | HashKey for HashMap, OrdHashKey for BTreeMap, none for Struct |
| Maps.KeyDerivesMeetKeyTrait | crates/variant-map-derive/src/common.rs:38-49 | the key enum's fixed derives supply every trait its key trait requires, and what those derives need |
| Maps.GenerateImplMapValue | crates/variant-map-derive/src/maps.rs:72-112 | `Map` is the library store of key enum and enum; `to_key` has one arm per variant to its key |
| Maps.ToKeyIsDeclarationIndex | crates/variant-map-derive/src/maps.rs:83-92 | the generated `to_key` sends variant i to the i-th key of the generated key enum |
| Maps.GenerateMapCode | crates/variant-map-derive/src/maps.rs:31-67 | Err iff not an enum; inside starts with the module `use`, holds the generated `MapValue` impl (`Maps.GenerateImplMapValue`) and the key-trait impl; the key enum outside or inside by visibility; no struct among the inside items |
| Derive.KeyEnumName | crates/variant-map-derive/src/lib.rs:112-119 | `keys(name)` when given, else the enum's name followed by `Key` |
| Derive.Derive | crates/variant-map-derive/src/lib.rs:106-157 | panics on bad parameters or map name; a non-enum gives only a compile error before the const; the const always opens with the crate, `common` and serde |
| Derive.StructDispatch | crates/variant-map-derive/src/lib.rs:130-132 | a `StructMap` enum expands to exactly what `Structs.GenerateStructCode` returns, behind the prelude, and so to the generated struct |
| Derive.MapDispatch | crates/variant-map-derive/src/lib.rs:127-129 | a hash or BTree map enum expands to its store's module `use` and to no struct |
| Derive.DefaultExpansion | crates/variant-map-derive/src/lib.rs:106-157 | with no parameters: a private hash-map key enum `EKey` before the const, with the hash map's derives |
| Derive.DefaultNamesDistinct | crates/variant-map-derive/src/lib.rs:116 | the default key-enum and struct names differ from the enum's and from each other |
| Scenarios.ToKeySeparatesVariants | crates/variant-map/tests/maps_tests.rs:54-67 | two values share a key iff they are of the same variant |
| Scenarios.InsertGetMap | crates/variant-map/tests/maps_tests.rs:69-91 | `remove(A)` gives A, `remove(B)` gives B(0), and after inserting B(0) then B(10), `remove(B)` gives B(10) |
| Scenarios.EnumMapInsertGet | crates/enum-map/tests/tests.rs:69-91 | the same scenario on `EnumMap` |
| Scenarios.SerializeRoundTrip | crates/variant-map/tests/maps_tests.rs:93-149 | the filled map announces four elements and reads back equal to itself |
| Scenarios.GeneratedToKey | crates/variant-map-derive/src/maps.rs:83-92 | for `MyEnum`, the generated `to_key` sends `B(..)` to `MyEnumKey::B`, the third key |
| Scenarios.GeneratedKeyOrder | crates/variant-map-derive/src/common.rs:21-57 | each key of `MyEnum`'s generated key enum sits at its variant's declaration position, the rank its derived `Ord` follows |
| Scenarios.BTreeSerializeOrder | crates/variant-map/src/btreemap/lib.rs:76-87 | a BTree store of `MyEnum` filled as B, D, A, C serialises as A, C, B(0), D(20): declaration order |

## Left out

- Serde mechanics are not modelled: the `Serializer`/`SeqAccess`/`Visitor` calls, `expecting` messages, `?` error propagation and the JSON forms. The wire form is a sequence of values; for a `StructMap` it is read back as a sequence of `Option` values.
- The syn/quote/darling machinery is not modelled: token streams, spans, `format_ident!`, `PhantomData` and the lifetime-ordering detail of `split_for_impl`. Attribute records come already parsed, and a `darling` failure is an `Err` in `DeriveInput.baseAttr`.
- `expect` panics on a malformed `VariantStruct` or `key_name` attribute are not modelled; `structParams` and each variant's `keyAttr` arrive parsed.
- Identifier validity is not modelled: the panics of `format_ident!` and `Ident::from_string` on a bad name. Every name is taken as a valid identifier.
- `Maps.GenerateMapCode`: the panic of `MapAttr::new` (maps.rs:37) on a malformed `#[VariantMap(..)]` attribute, "Wrong VariantMap parameters" (attrs.rs:257), is not modelled; the map generator takes that attribute as well formed and expands normally.
- `Structs.GenerateImplSerialize`: its `implWhere` is the corrected clause `Structs.WhereClauseAddEnumBound`, not what structs.rs:115 writes; the clause as written, which breaks on a trailing comma or an empty `where`, is `Structs.WhereClauseAddEnumBoundAsWritten` (see Findings).
- `Structs.GenerateImplDeserialize`: the same corrected clause in place of what structs.rs:171 writes.
- `StructMapStore.RoundTrip`: the round trip assumes a self-describing format. The generated `serialize` writes each occupied field's bare value (structs.rs:107), while `visit_seq` reads `Option<Enum>` elements (structs.rs:195). `Wrap` reads a bare value back as `Some(value)`, as serde_json does. A format that tags `Option` (bincode, postcard) would not read it back this way, and that is not modelled.
- `Attrs.ToLowercase` and `Attrs.LowerChar`: lower-case ASCII capitals only, not all of Unicode. The length is kept only under that restriction: Rust's `str::to_lowercase` can change it (U+0130 becomes two characters). No other character lower-cases to a letter of `hashmap`, `btreemap` or `structmap`, so `TryFrom` gives the same verdict.
- `Derive.Derive`: the panic on an unknown `datastruct` carries the message `unwrap` reports, without the `Result::unwrap()` prefix.
- `HashMapStore.Map.Serialize`: the hash map's iteration order is left unspecified (any order of the stored keys).
- `EnumMapStore.EnumMap.Serialize`: the same unspecified order.
- Raw `Deref`/`DerefMut` access to the std map is not modelled beyond `get` and `remove`; other std-map methods are out of scope. Capacity hints (`with_capacity`) have no observable effect and are dropped.
- `StructMapStore.StructMap.Assign`: a write through a reference from `get_mut` or `IndexMut` is modelled as assigning the slot's whole content.
- The `enum-map-derive` crate is not part of this model; it is a superseded predecessor that does not compile. Nor are `enum-map`'s `btreemap` module (outside its module tree), the alias macros or the example program.

## Findings

| source | as written | input that shows it | evidently intended | confidence | as-written member | corrected member |
|---|---|---|---|---|---|---|
| crates/variant-map-derive/src/structs.rs:110 | the generated `serialize` announces `Some(variant count)` as the sequence length but emits only the occupied fields | a `StructMap` of two variants holding only the first: two announced, one emitted | announce the number of occupied fields, or `None` | medium, not executed | StructMapStore.StructMap.Serialize | StructMapStore.StructMap.SerializeExact |
| crates/variant-map-derive/src/structs.rs:85 | the rendered where clause is followed by `, Enum<..>: bound` | `enum E<T> where T: Clone, { .. }` gives two commas in a row; an empty `where` gives a lone comma | the enum's bound appended as one more predicate | medium, not executed | Structs.WhereClauseAddEnumBoundAsWritten | Structs.WhereClauseAddEnumBound |
