/**
 * `variant_map::btreemap::Map`: the same store as the hash map, over a std
 * `BTreeMap`, so iteration and serialisation follow the key order.
 *
 * The generated key enum of a `BTreeMap` store derives `Ord`; for a
 * fieldless enum the derived order compares declaration positions. `rank`
 * is that position, so ascending key order is declaration order.
 */
module BTreeMapStore {
  import opened Wrappers
  import opened VariantStore

  /** `rank` orders keys totally: distinct keys have distinct ranks. */
  ghost predicate RankInjective<K(!new)>(rank: K -> nat) {
    forall a, b :: rank(a) == rank(b) ==> a == b
  }

  /** The key of least rank in a non-empty key set: how a `BTreeMap` finds its next entry. */
  method MinByRank<K>(rank: K -> nat, keys: set<K>) returns (least: K)
    requires keys != {}
    ensures least in keys
    ensures forall k :: k in keys ==> rank(least) <= rank(k)
  {
    least :| least in keys;
    var rest := keys - {least};
    while rest != {}
      invariant rest <= keys && least in keys
      invariant forall k :: k in keys && k !in rest ==> rank(least) <= rank(k)
      decreases rest
    {
      var k :| k in rest;
      if rank(k) < rank(least) {
        least := k;
      }
      rest := rest - {k};
    }
  }

  /** The set of elements of a key sequence. */
  ghost function Elements<K>(ks: seq<K>): set<K> {
    set i | 0 <= i < |ks| :: ks[i]
  }

  /** A key sequence in strictly ascending rank order (so without repetition). */
  ghost predicate Ascending<K>(rank: K -> nat, ks: seq<K>) {
    forall i, j :: 0 <= i < j < |ks| ==> rank(ks[i]) < rank(ks[j])
  }

  lemma ElementsAppend<K>(ks: seq<K>, k: K)
    ensures Elements(ks + [k]) == Elements(ks) + {k}
  {
    var q := ks + [k];
    forall x | x in Elements(q) ensures x in Elements(ks) + {k} {
      var i :| 0 <= i < |q| && q[i] == x;
      if i < |ks| { assert q[i] == ks[i]; }
    }
    forall x | x in Elements(ks) ensures x in Elements(q) {
      var i :| 0 <= i < |ks| && ks[i] == x;
      assert q[i] == ks[i];
    }
    assert q[|ks|] == k;
  }

  /**
   * A key set listed in ascending order: how a `BTreeMap` walks its keys.
   * The keys are taken least first.
   */
  method SortedKeys<K(!new)>(rank: K -> nat, keys: set<K>) returns (ks: seq<K>)
    requires RankInjective(rank)
    ensures |ks| == |keys| && Elements(ks) == keys
    ensures Ascending(rank, ks)
  {
    ks := [];
    var rest := keys;
    while rest != {}
      invariant rest <= keys
      invariant |ks| + |rest| == |keys|
      invariant Elements(ks) + rest == keys
      invariant Ascending(rank, ks)
      invariant forall i, k :: 0 <= i < |ks| && k in rest ==> rank(ks[i]) < rank(k)
      decreases rest
    {
      var k := MinByRank(rank, rest);
      TakeLeast(rank, ks, rest, k);
      ks := ks + [k];
      rest := rest - {k};
    }
  }

  /** Moving the least remaining key to the end of the listing keeps it ascending. */
  lemma TakeLeast<K(!new)>(rank: K -> nat, ks: seq<K>, rest: set<K>, k: K)
    requires RankInjective(rank)
    requires Ascending(rank, ks)
    requires forall i, k' :: 0 <= i < |ks| && k' in rest ==> rank(ks[i]) < rank(k')
    requires k in rest && forall k' :: k' in rest ==> rank(k) <= rank(k')
    ensures Elements(ks + [k]) == Elements(ks) + {k}
    ensures Ascending(rank, ks + [k])
    ensures forall i, k' :: 0 <= i < |ks| + 1 && k' in rest - {k} ==> rank((ks + [k])[i]) < rank(k')
  {
    forall k' | k' in rest - {k} ensures rank(k) < rank(k') {
      assert rank(k) != rank(k');
    }
    ElementsAppend(ks, k);
    var q := ks + [k];
    forall i, j | 0 <= i < j < |q| ensures rank(q[i]) < rank(q[j]) {
      assert q[i] == ks[i];
      if j < |ks| { assert q[j] == ks[j]; }
    }
    forall i, k' | 0 <= i < |q| && k' in rest - {k} ensures rank(q[i]) < rank(k') {
      if i < |ks| { assert q[i] == ks[i]; }
    }
  }

  /**
   * A map's entries listed once each in ascending key order give, split
   * into their keys and their values, a values listing whose keys ascend.
   */
  lemma EntryListing<K, V>(rank: K -> nat, m: map<K, V>, pairs: seq<(K, V)>, keys: seq<K>, elems: seq<V>)
    requires |pairs| == |m| == |keys| == |elems|
    requires forall i :: 0 <= i < |pairs| ==> pairs[i].0 in m && pairs[i].1 == m[pairs[i].0]
    requires forall k :: k in m ==> exists i :: 0 <= i < |pairs| && pairs[i].0 == k
    requires forall i, j :: 0 <= i < j < |pairs| ==> rank(pairs[i].0) < rank(pairs[j].0)
    requires forall i :: 0 <= i < |pairs| ==> keys[i] == pairs[i].0 && elems[i] == pairs[i].1
    ensures ValuesListing(m, keys, elems) && Ascending(rank, keys)
  {
    forall k | k in m ensures k in keys {
      var i :| 0 <= i < |pairs| && pairs[i].0 == k;
      assert keys[i] == k;
    }
  }

  /** In a key-consistent map, the values of a listing whose keys ascend have ascending keys. */
  lemma ListingAscends<K, V>(toKey: V -> K, rank: K -> nat, m: map<K, V>, keys: seq<K>, elems: seq<V>)
    requires KeyConsistent(toKey, m) && ValuesListing(m, keys, elems) && Ascending(rank, keys)
    ensures forall i, j :: 0 <= i < j < |elems| ==> rank(toKey(elems[i])) < rank(toKey(elems[j]))
  {
    assert forall i :: 0 <= i < |elems| ==> toKey(elems[i]) == keys[i];
  }

  class Map<K(==, !new), V(==)> {
    /** `MapValue::to_key` of the value type. */
    const toKey: V -> K
    /** The derived `Ord` of the key enum, as the declaration position of each key. */
    const rank: K -> nat
    /** The wrapped `BTreeMap`. */
    var inner: map<K, V>

    /** The key type's order is a total order. */
    ghost predicate Valid() {
      RankInjective(rank)
    }

    /** `Default::default` (what the generated `make_map` returns): the empty map. */
    constructor Default(toKey: V -> K, rank: K -> nat)
      requires RankInjective(rank)
      ensures Valid() && this.toKey == toKey && this.rank == rank
      ensures inner == map[] && KeyConsistent(toKey, inner)
    {
      this.toKey := toKey;
      this.rank := rank;
      inner := map[];
    }

    /** `Map::new` and `From<BTreeMap>`: wrap a map as it is, consistent or not. */
    constructor FromInner(toKey: V -> K, rank: K -> nat, m: map<K, V>)
      requires RankInjective(rank)
      ensures Valid() && this.toKey == toKey && this.rank == rank && inner == m
    {
      this.toKey := toKey;
      this.rank := rank;
      inner := m;
    }

    /** `BTreeMap::get` reached through `Deref`. */
    function Get(key: K): (r: Option<V>)
      reads this
      ensures r.Some? <==> key in inner
      ensures r.Some? ==> r.value == inner[key]
      ensures KeyConsistent(toKey, inner) && r.Some? ==> toKey(r.value) == key
    {
      if key in inner then Some(inner[key]) else None
    }

    /**
     * `insert`: an upsert at the value's own key. It returns what was
     * stored at that key before and leaves every other key alone.
     */
    method Insert(value: V) returns (previous: Option<V>)
      modifies this
      ensures inner == old(inner)[toKey(value) := value]
      ensures previous == if toKey(value) in old(inner) then Some(old(inner)[toKey(value)]) else None
      ensures KeyConsistent(toKey, old(inner)) ==> KeyConsistent(toKey, inner)
    {
      var key := toKey(value);
      previous := if key in inner then Some(inner[key]) else None;
      inner := inner[key := value];
    }

    /** `BTreeMap::remove` reached through `DerefMut`. */
    method Remove(key: K) returns (removed: Option<V>)
      modifies this
      ensures removed == if key in old(inner) then Some(old(inner)[key]) else None
      ensures inner == old(inner) - {key}
      ensures KeyConsistent(toKey, old(inner)) ==> KeyConsistent(toKey, inner)
    {
      removed := if key in inner then Some(inner[key]) else None;
      inner := inner - {key};
    }

    /** `Index`: `get(..).unwrap()`, defined only for a stored key (an absent key panics). */
    function Index(key: K): (r: V)
      reads this
      requires key in inner
      ensures Get(key) == Some(r)
      ensures KeyConsistent(toKey, inner) ==> toKey(r) == key
    {
      inner[key]
    }

    /**
     * Assignment through `IndexMut`: defined only for a stored key; it keeps
     * the map key-consistent exactly when the new value belongs to that key.
     */
    method IndexMut(key: K, value: V)
      requires key in inner
      modifies this
      ensures inner == old(inner)[key := value]
      ensures KeyConsistent(toKey, old(inner)) ==> (KeyConsistent(toKey, inner) <==> toKey(value) == key)
    {
      inner := inner[key := value];
      assert inner[key] == value;
    }

    /**
     * `IntoIterator for &Map`: every (key, value) pair once, in strictly
     * ascending key order.
     */
    method Entries() returns (pairs: seq<(K, V)>)
      requires Valid()
      ensures |pairs| == |inner|
      ensures forall i :: 0 <= i < |pairs| ==> pairs[i].0 in inner && pairs[i].1 == inner[pairs[i].0]
      ensures forall k :: k in inner ==> exists i :: 0 <= i < |pairs| && pairs[i].0 == k
      ensures forall i, j :: 0 <= i < j < |pairs| ==> rank(pairs[i].0) < rank(pairs[j].0)
    {
      var m := inner;
      var ks := SortedKeys(rank, m.Keys);
      pairs := [];
      for n := 0 to |ks|
        invariant |pairs| == n
        invariant forall i :: 0 <= i < n ==> pairs[i] == (ks[i], m[ks[i]])
      {
        assert ks[n] in Elements(ks);
        pairs := pairs + [(ks[n], m[ks[n]])];
      }
      forall k | k in inner ensures exists i :: 0 <= i < |pairs| && pairs[i].0 == k {
        assert k in Elements(ks);
      }
    }

    /**
     * `Serialize`: a sequence whose announced length is `len()`, holding the
     * value stored at each key, each key visited once in ascending key
     * order (whatever the map holds), and no key. `keys` is the visiting
     * order. For a key-consistent map the values' own keys ascend, and
     * reading the sequence back gives the same map.
     */
    method Serialize() returns (lenHint: nat, elems: seq<V>, ghost keys: seq<K>)
      requires Valid()
      ensures lenHint == |inner| == |elems|
      ensures ValuesListing(inner, keys, elems) && Ascending(rank, keys)
      ensures KeyConsistent(toKey, inner) ==>
                forall i, j :: 0 <= i < j < |elems| ==> rank(toKey(elems[i])) < rank(toKey(elems[j]))
      ensures KeyConsistent(toKey, inner) ==> Collect(toKey, elems) == inner
    {
      lenHint := |inner|;
      var pairs := Entries();
      elems := ValuesOf(pairs);
      keys := seq(|pairs|, i requires 0 <= i < |pairs| => pairs[i].0);
      EntryListing(rank, inner, pairs, keys, elems);
      ListingRoundTrip(toKey, inner, keys, elems);
      if KeyConsistent(toKey, inner) {
        ListingAscends(toKey, rank, inner, keys, elems);
      }
    }

    /** The loop over `values()`: the second component of each pair, in order. */
    static method ValuesOf(pairs: seq<(K, V)>) returns (elems: seq<V>)
      ensures |elems| == |pairs|
      ensures forall i :: 0 <= i < |pairs| ==> elems[i] == pairs[i].1
    {
      elems := [];
      for n := 0 to |pairs|
        invariant |elems| == n
        invariant forall i :: 0 <= i < n ==> elems[i] == pairs[i].1
      {
        elems := elems + [pairs[n].1];
      }
    }

    /**
     * `MapVisitor::visit_seq`: reads the elements in order into an empty
     * `BTreeMap`, each at its own key, and wraps the result.
     */
    static method VisitSeq(toKey: V -> K, rank: K -> nat, elems: seq<V>) returns (result: Map<K, V>)
      requires RankInjective(rank)
      ensures fresh(result) && result.Valid() && result.toKey == toKey && result.rank == rank
      ensures result.inner == Collect(toKey, elems)
      ensures KeyConsistent(toKey, result.inner)
    {
      var m: map<K, V> := map[];
      var i := 0;
      while i < |elems|
        invariant 0 <= i <= |elems|
        invariant m == Collect(toKey, elems[..i])
      {
        var value := elems[i];
        assert elems[..i + 1][..i] == elems[..i];
        m := m[toKey(value) := value];
        i := i + 1;
      }
      assert elems[..i] == elems;
      result := new Map.FromInner(toKey, rank, m);
    }
  }
}
