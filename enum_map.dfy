/**
 * `enum_map::EnumMap`, the older store that `variant_map::hashmap::Map`
 * replaced: a wrapper around a std `HashMap` from an enum's key type to its
 * values, bound to the enum through `EnumMapValue::to_key`.
 */
module EnumMapStore {
  import opened Wrappers
  import opened VariantStore

  class EnumMap<K(==), V(==)> {
    /** `EnumMapValue::to_key` of the value type. */
    const toKey: V -> K
    /** The wrapped `HashMap`. */
    var inner: map<K, V>

    /** `Default::default`: the empty map. */
    constructor Default(toKey: V -> K)
      ensures this.toKey == toKey
      ensures inner == map[] && KeyConsistent(toKey, inner)
    {
      this.toKey := toKey;
      inner := map[];
    }

    /** `EnumMap::new` and `From<HashMap>`: wrap a map as it is, consistent or not. */
    constructor FromInner(toKey: V -> K, m: map<K, V>)
      ensures this.toKey == toKey && inner == m
    {
      this.toKey := toKey;
      inner := m;
    }

    /** `HashMap::get` reached through `Deref`. */
    function Get(key: K): (r: Option<V>)
      reads this
      ensures r.Some? <==> key in inner
      ensures r.Some? ==> r.value == inner[key]
      ensures KeyConsistent(toKey, inner) && r.Some? ==> toKey(r.value) == key
    {
      if key in inner then Some(inner[key]) else None
    }

    /**
     * `insert`: an upsert at the value's own key. It returns what was
     * stored at that key before and leaves every other key alone.
     */
    method Insert(value: V) returns (previous: Option<V>)
      modifies this
      ensures inner == old(inner)[toKey(value) := value]
      ensures previous == if toKey(value) in old(inner) then Some(old(inner)[toKey(value)]) else None
      ensures KeyConsistent(toKey, old(inner)) ==> KeyConsistent(toKey, inner)
    {
      var key := toKey(value);
      previous := if key in inner then Some(inner[key]) else None;
      inner := inner[key := value];
    }

    /** `HashMap::remove` reached through `DerefMut`. */
    method Remove(key: K) returns (removed: Option<V>)
      modifies this
      ensures removed == if key in old(inner) then Some(old(inner)[key]) else None
      ensures inner == old(inner) - {key}
      ensures KeyConsistent(toKey, old(inner)) ==> KeyConsistent(toKey, inner)
    {
      removed := if key in inner then Some(inner[key]) else None;
      inner := inner - {key};
    }

    /**
     * `Index`: `get(..).unwrap()`, so it is defined only for a stored key
     * (an absent key panics).
     */
    function Index(key: K): (r: V)
      reads this
      requires key in inner
      ensures Get(key) == Some(r)
      ensures KeyConsistent(toKey, inner) ==> toKey(r) == key
    {
      inner[key]
    }

    /**
     * Assignment through `IndexMut` (`map[key] = value`): defined only for a
     * stored key. It keeps the map key-consistent exactly when the new value
     * belongs to that key.
     */
    method IndexMut(key: K, value: V)
      requires key in inner
      modifies this
      ensures inner == old(inner)[key := value]
      ensures KeyConsistent(toKey, old(inner)) ==> (KeyConsistent(toKey, inner) <==> toKey(value) == key)
    {
      inner := inner[key := value];
      assert inner[key] == value;
    }

    /**
     * `Serialize`: a sequence whose announced length is `len()`, holding the
     * value stored at each key, each key visited once, in the map's
     * unspecified iteration order, and no key. `keys` is the visiting order.
     * Read back, a key-consistent map gives the same map.
     */
    method Serialize() returns (lenHint: nat, elems: seq<V>, ghost keys: seq<K>)
      ensures lenHint == |inner| == |elems|
      ensures ValuesListing(inner, keys, elems)
      ensures KeyConsistent(toKey, inner) ==> Collect(toKey, elems) == inner
    {
      lenHint := |inner|;
      elems := [];
      keys := [];
      var rest := inner.Keys;
      while rest != {}
        invariant rest <= inner.Keys
        invariant |keys| == |elems| && |elems| + |rest| == |inner|
        invariant forall i :: 0 <= i < |keys| ==> keys[i] in inner && keys[i] !in rest && elems[i] == inner[keys[i]]
        invariant forall i, j :: 0 <= i < j < |keys| ==> keys[i] != keys[j]
        invariant forall k :: k in inner && k !in rest ==> k in keys
        decreases rest
      {
        var k :| k in rest;
        elems := elems + [inner[k]];
        keys := keys + [k];
        rest := rest - {k};
      }
      ListingRoundTrip(toKey, inner, keys, elems);
    }

    /**
     * `EnumMapVisitor::visit_seq`: reads the elements in order into an empty
     * map, each at its own key, and wraps the result.
     */
    static method VisitSeq(toKey: V -> K, elems: seq<V>) returns (result: EnumMap<K, V>)
      ensures fresh(result) && result.toKey == toKey
      ensures result.inner == Collect(toKey, elems)
      ensures KeyConsistent(toKey, result.inner)
    {
      var m: map<K, V> := map[];
      var i := 0;
      while i < |elems|
        invariant 0 <= i <= |elems|
        invariant m == Collect(toKey, elems[..i])
      {
        var value := elems[i];
        assert elems[..i + 1][..i] == elems[..i];
        m := m[toKey(value) := value];
        i := i + 1;
      }
      assert elems[..i] == elems;
      result := new EnumMap.FromInner(toKey, m);
    }
  }
}
