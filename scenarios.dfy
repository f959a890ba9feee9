/**
 * The library's own usage scenarios, replayed on the model: the enum
 * `MyEnum { A, C, B(i32), D(i32) }` with its key enum and a hash-map store,
 * and the same enum in a BTree store keyed by the key enum the derive
 * generates.
 */
module Scenarios {
  import opened Wrappers
  import opened VariantStore
  import HashMapStore
  import EnumMapStore
  import BTreeMapStore
  import opened Attrs
  import opened Syntax
  import opened Common
  import Maps

  datatype MyEnum = A | C | B(b: int) | D(d: int)

  /** The test's hand-written key enum `MyEnumKey { A, B, C, D }`: one key per variant. */
  datatype MyEnumKey = KeyA | KeyB | KeyC | KeyD

  /** `to_key`: each variant to its key, whatever its payload. */
  function ToKey(v: MyEnum): MyEnumKey {
    match v
    case A => KeyA
    case C => KeyC
    case B(_) => KeyB
    case D(_) => KeyD
  }

  /** Two values share a key exactly when they are of the same variant. */
  lemma ToKeySeparatesVariants(x: MyEnum, y: MyEnum)
    ensures ToKey(x) == ToKey(y) <==> (x.A? && y.A?) || (x.C? && y.C?) || (x.B? && y.B?) || (x.D? && y.D?)
  {
  }

  /**
   * Insert all four variants, take `A` and `B` back out, then insert
   * `B(0)` and `B(10)`: the later insert replaced the earlier one, so
   * `B(10)` comes out.
   */
  method InsertGetMap() returns (takenA: Option<MyEnum>, takenB: Option<MyEnum>, takenLastB: Option<MyEnum>)
    ensures takenA == Some(A)
    ensures takenB == Some(B(0))
    ensures takenLastB == Some(B(10))
  {
    var m := new HashMapStore.Map<MyEnumKey, MyEnum>.Default(ToKey);
    assert m.toKey(A) == KeyA && m.toKey(B(0)) == KeyB && m.toKey(C) == KeyC && m.toKey(D(20)) == KeyD;
    assert m.toKey(B(10)) == KeyB;
    var previous := m.Insert(A);
    previous := m.Insert(B(0));
    previous := m.Insert(C);
    previous := m.Insert(D(20));
    ghost var filled := m.inner;
    assert filled[KeyA] == A && filled[KeyB] == B(0);
    takenA := m.Remove(KeyA);
    assert m.inner[KeyB] == B(0);
    takenB := m.Remove(KeyB);
    previous := m.Insert(B(0));
    previous := m.Insert(B(10));
    assert m.inner[KeyB] == B(10);
    takenLastB := m.Remove(KeyB);
  }

  /** The same scenario on the older `EnumMap`. */
  method EnumMapInsertGet() returns (takenA: Option<MyEnum>, takenB: Option<MyEnum>, takenLastB: Option<MyEnum>)
    ensures takenA == Some(A)
    ensures takenB == Some(B(0))
    ensures takenLastB == Some(B(10))
  {
    var m := new EnumMapStore.EnumMap<MyEnumKey, MyEnum>.Default(ToKey);
    assert m.toKey(A) == KeyA && m.toKey(B(0)) == KeyB && m.toKey(C) == KeyC && m.toKey(D(20)) == KeyD;
    assert m.toKey(B(10)) == KeyB;
    var previous := m.Insert(A);
    previous := m.Insert(B(0));
    previous := m.Insert(C);
    previous := m.Insert(D(20));
    ghost var filled := m.inner;
    assert filled[KeyA] == A && filled[KeyB] == B(0);
    takenA := m.Remove(KeyA);
    assert m.inner[KeyB] == B(0);
    takenB := m.Remove(KeyB);
    previous := m.Insert(B(0));
    previous := m.Insert(B(10));
    assert m.inner[KeyB] == B(10);
    takenLastB := m.Remove(KeyB);
  }

  /** A map holding a value at every key holds four values. */
  lemma AllKeysStored(m: map<MyEnumKey, MyEnum>)
    requires KeyA in m && KeyB in m && KeyC in m && KeyD in m
    ensures |m| == 4
  {
    forall k | k in m.Keys
      ensures k in {KeyA, KeyB, KeyC, KeyD}
    {
      match k
      case KeyA =>
      case KeyB =>
      case KeyC =>
      case KeyD =>
    }
    assert m.Keys == {KeyA, KeyB, KeyC, KeyD};
  }

  /**
   * Serialising the filled map announces four elements, and reading the
   * elements back gives a map equal to the original.
   */
  method SerializeRoundTrip() returns (lenHint: nat, same: bool)
    ensures lenHint == 4 && same
  {
    var m := new HashMapStore.Map<MyEnumKey, MyEnum>.Default(ToKey);
    assert m.toKey(A) == KeyA && m.toKey(B(0)) == KeyB && m.toKey(C) == KeyC && m.toKey(D(20)) == KeyD;
    assert m.toKey(B(69)) == KeyB;
    var previous := m.Insert(A);
    previous := m.Insert(B(0));
    previous := m.Insert(C);
    previous := m.Insert(D(20));
    previous := m.Insert(B(69));
    AllKeysStored(m.inner);
    var elems;
    ghost var keys;
    lenHint, elems, keys := m.Serialize();
    var m2 := HashMapStore.Map<MyEnumKey, MyEnum>.VisitSeq(ToKey, elems);
    same := m2.inner == m.inner;
  }

  /** The enum's variants as the derive sees them: `A`, `C`, `B(i32)`, `D(i32)`, no `key_name`. */
  const Variants: seq<Variant> := [
    Variant("A", 0, KeyNameAttr(None, None)),
    Variant("C", 0, KeyNameAttr(None, None)),
    Variant("B", 1, KeyNameAttr(None, None)),
    Variant("D", 1, KeyNameAttr(None, None))]

  /**
   * The `to_key` the derive generates for this enum sends `B(..)` to
   * `MyEnumKey::B`, the third key of the generated key enum, as the
   * hand-written `ToKey` above does.
   */
  lemma GeneratedToKey(input: DeriveInput, base: BaseAttr)
    requires input.ident == "MyEnum"
    ensures var arms := Maps.GenerateImplMapValue(input, Variants, "MyEnumKey").toKeyArms;
            var key := Select(arms, VariantLabel, "B");
            key == Some(KeyPath("MyEnumKey", "B")) &&
            KeyIndex(GenerateKeyEnum(HashMap, base, Variants, "MyEnumKey").variants, "B") == Some(2)
  {
    VariantsDistinct();
    var arms := Maps.GenerateImplMapValue(input, Variants, "MyEnumKey").toKeyArms;
    Maps.ToKeyIsDeclarationIndex(HashMap, base, input, Variants, "MyEnumKey", 2);
    VariantArmSelected(arms, Variants, 2);
    assert Variants[2].ident == "B" && KeyName(Variants[2].keyAttr, "B") == "B";
    assert arms[2] == (PatternOf(EntryOf(input.ident, Variants[2], "MyEnumKey")), KeyPath("MyEnumKey", "B"));
  }

  /** The four variants have distinct identifiers and, without overrides, distinct key names. */
  lemma VariantsDistinct()
    ensures IdentsDistinct(Variants) && KeyNamesDistinct(Variants)
  {
    assert forall i :: 0 <= i < |Variants| ==> Variants[i].keyAttr.code.None?;
    DefaultKeyNamesDistinct(Variants);
  }

  /** The name of each key, as the derive writes it: the variant's own identifier. */
  function KeyNameOf(k: MyEnumKey): string {
    match k
    case KeyA => "A"
    case KeyB => "B"
    case KeyC => "C"
    case KeyD => "D"
  }

  /**
   * The derived `Ord` of the generated key enum `MyEnumKey { A, C, B, D }`:
   * the declaration position of each key.
   */
  function DeclarationRank(k: MyEnumKey): nat {
    match k
    case KeyA => 0
    case KeyC => 1
    case KeyB => 2
    case KeyD => 3
  }

  /** Each key's declaration rank is its position in the key enum the derive generates for `MyEnum`. */
  lemma GeneratedKeyOrder(base: BaseAttr, k: MyEnumKey)
    ensures KeyIndex(GenerateKeyEnum(BTreeMap, base, Variants, "MyEnumKey").variants, KeyNameOf(k)) == Some(DeclarationRank(k))
  {
    VariantsDistinct();
    var i := DeclarationRank(k);
    KeyIndexIsDeclarationIndex(BTreeMap, base, Variants, "MyEnumKey", i);
    assert KeyName(Variants[i].keyAttr, Variants[i].ident) == KeyNameOf(k);
  }

  /**
   * Filled in the order `B`, `D`, `A`, `C`, a BTree store of `MyEnum`
   * serialises its values in the declaration order of the variants:
   * `A`, `C`, `B(0)`, `D(20)`.
   */
  method BTreeSerializeOrder() returns (elems: seq<MyEnum>)
    ensures elems == [A, C, B(0), D(20)]
  {
    var m := FillBTree();
    ghost var filled := m.inner;
    var lenHint;
    ghost var keys;
    lenHint, elems, keys := m.Serialize();
    RanksInOrder(keys);
    ListedInOrder(filled, keys, elems);
  }

  /** A BTree store keyed by declaration rank, filled with `B(0)`, `D(20)`, `A`, `C` in that order. */
  method FillBTree() returns (m: BTreeMapStore.Map<MyEnumKey, MyEnum>)
    ensures fresh(m) && m.Valid() && m.rank == DeclarationRank
    ensures KeyA in m.inner && KeyB in m.inner && KeyC in m.inner && KeyD in m.inner
    ensures m.inner[KeyA] == A && m.inner[KeyB] == B(0) && m.inner[KeyC] == C && m.inner[KeyD] == D(20)
    ensures |m.inner| == 4
  {
    DeclarationRankInjective();
    m := new BTreeMapStore.Map<MyEnumKey, MyEnum>.Default(ToKey, DeclarationRank);
    assert m.toKey(A) == KeyA && m.toKey(B(0)) == KeyB && m.toKey(C) == KeyC && m.toKey(D(20)) == KeyD;
    var previous := m.Insert(B(0));
    previous := m.Insert(D(20));
    previous := m.Insert(A);
    previous := m.Insert(C);
    AllKeysStored(m.inner);
  }

  /** Four keys in strictly ascending declaration rank are the four keys in declaration order. */
  lemma RanksInOrder(keys: seq<MyEnumKey>)
    requires |keys| == 4 && BTreeMapStore.Ascending(DeclarationRank, keys)
    ensures keys == [KeyA, KeyC, KeyB, KeyD]
  {
    assert DeclarationRank(keys[0]) < DeclarationRank(keys[1]) < DeclarationRank(keys[2]) < DeclarationRank(keys[3]);
  }

  /** Declaration ranks are distinct, so they order the keys totally. */
  lemma DeclarationRankInjective()
    ensures BTreeMapStore.RankInjective(DeclarationRank)
  {
    forall a, b | DeclarationRank(a) == DeclarationRank(b) ensures a == b {
      match a
      case KeyA =>
      case KeyB =>
      case KeyC =>
      case KeyD =>
    }
  }

  /** The values listed along the keys `A`, `C`, `B`, `D` of the filled store. */
  lemma ListedInOrder(m: map<MyEnumKey, MyEnum>, keys: seq<MyEnumKey>, elems: seq<MyEnum>)
    requires KeyA in m && KeyB in m && KeyC in m && KeyD in m
    requires m[KeyA] == A && m[KeyB] == B(0) && m[KeyC] == C && m[KeyD] == D(20)
    requires ValuesListing(m, keys, elems) && keys == [KeyA, KeyC, KeyB, KeyD]
    ensures elems == [A, C, B(0), D(20)]
  {
    assert elems[0] == m[keys[0]] && elems[1] == m[keys[1]] && elems[2] == m[keys[2]] && elems[3] == m[keys[3]];
  }
}
