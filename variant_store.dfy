/**
 * What the three map-backed variant stores (`variant_map::hashmap::Map`,
 * `variant_map::btreemap::Map` and `enum_map::EnumMap`) have in common.
 *
 * The `MapValue` trait binds an enum to its key type through `to_key`; here
 * that projection is the function parameter `toKey` every store carries.
 * A store keeps at most one value per key. It is *key-consistent* when every
 * stored value sits at the key its own variant projects to; `insert` and
 * deserialisation establish and preserve that, while wrapping a raw map
 * (`Map::new`, `From`) or writing through `IndexMut` need not.
 */
module VariantStore {

  /** Every stored pair (k, v) has k == to_key(v). */
  ghost predicate KeyConsistent<K, V>(toKey: V -> K, m: map<K, V>) {
    forall k :: k in m ==> toKey(m[k]) == k
  }

  /** The keys of the elements of a wire sequence. */
  ghost function KeysOf<K, V>(toKey: V -> K, elems: seq<V>): set<K> {
    set i | 0 <= i < |elems| :: toKey(elems[i])
  }

  /**
   * The map that `visit_seq` builds from a wire sequence: starting from the
   * empty map, each element is inserted at its own key, in sequence order,
   * so a later element with the same key overwrites an earlier one.
   */
  function Collect<K, V>(toKey: V -> K, elems: seq<V>): (m: map<K, V>)
    ensures KeyConsistent(toKey, m)
    ensures m.Keys == KeysOf(toKey, elems)
    ensures forall k :: k in m ==> m[k] in elems
  {
    if elems == [] then map[]
    else
      var last := elems[|elems| - 1];
      var prefix := elems[..|elems| - 1];
      var m' := Collect(toKey, prefix);
      assert forall k :: k in m' ==> m'[k] in elems by {
        forall k | k in m' ensures m'[k] in elems {
          var i :| 0 <= i < |prefix| && prefix[i] == m'[k];
          assert elems[i] == prefix[i];
        }
      }
      assert KeysOf(toKey, elems) == KeysOf(toKey, prefix) + {toKey(last)} by {
        forall k | k in KeysOf(toKey, elems) ensures k in KeysOf(toKey, prefix) + {toKey(last)} {
          var i :| 0 <= i < |elems| && toKey(elems[i]) == k;
          if i < |prefix| { assert prefix[i] == elems[i]; }
        }
        forall k | k in KeysOf(toKey, prefix) ensures k in KeysOf(toKey, elems) {
          var i :| 0 <= i < |prefix| && toKey(prefix[i]) == k;
          assert elems[i] == prefix[i];
        }
        assert toKey(elems[|elems| - 1]) == toKey(last);
      }
      m'[toKey(last) := last]
  }

  /**
   * Last wins: the element kept for a key is the last element of the
   * sequence that has that key, and a duplicate is never an error.
   */
  lemma {:induction false} CollectLastWins<K, V>(toKey: V -> K, elems: seq<V>, i: nat)
    requires i < |elems|
    requires forall j :: i < j < |elems| ==> toKey(elems[j]) != toKey(elems[i])
    ensures toKey(elems[i]) in Collect(toKey, elems)
    ensures Collect(toKey, elems)[toKey(elems[i])] == elems[i]
  {
    if i < |elems| - 1 {
      var prefix := elems[..|elems| - 1];
      forall j | i < j < |prefix| ensures toKey(prefix[j]) != toKey(prefix[i]) {
        assert prefix[j] == elems[j];
      }
      CollectLastWins(toKey, prefix, i);
      assert prefix[i] == elems[i];
    }
  }

  /**
   * The serialisation round trip: if a key-consistent map `m` is written as
   * a sequence holding each of its values (in any order, as long as it holds
   * nothing else), reading that sequence back rebuilds exactly `m`.
   */
  lemma RoundTrip<K, V>(toKey: V -> K, m: map<K, V>, elems: seq<V>)
    requires KeyConsistent(toKey, m)
    requires forall k :: k in m ==> m[k] in elems
    requires forall i :: 0 <= i < |elems| ==> elems[i] in m.Values
    ensures Collect(toKey, elems) == m
  {
    var c := Collect(toKey, elems);
    forall k | k in m ensures k in c {
      var i :| 0 <= i < |elems| && elems[i] == m[k];
      assert toKey(elems[i]) == k;
    }
    forall k | k in c ensures k in m && c[k] == m[k] {
      var i :| 0 <= i < |elems| && toKey(elems[i]) == k;
      var k' :| k' in m && m[k'] == elems[i];
      assert k' == k;
      var j :| 0 <= j < |elems| && elems[j] == c[k];
      var k'' :| k'' in m && m[k''] == c[k];
      assert k'' == toKey(c[k]) == k;
    }
  }

  /**
   * What iterating a map's values yields: `keys` lists the keys of `m`
   * once each, and `elems` holds, in the same order, the value stored at
   * each of them.
   */
  ghost predicate ValuesListing<K, V>(m: map<K, V>, keys: seq<K>, elems: seq<V>) {
    |keys| == |elems| == |m| &&
    (forall i :: 0 <= i < |keys| ==> keys[i] in m && elems[i] == m[keys[i]]) &&
    (forall i, j :: 0 <= i < j < |keys| ==> keys[i] != keys[j]) &&
    (forall k :: k in m ==> k in keys)
  }

  /**
   * A values listing holds every stored value and nothing else; for a
   * key-consistent map it reads back to the map.
   */
  lemma ListingRoundTrip<K, V>(toKey: V -> K, m: map<K, V>, keys: seq<K>, elems: seq<V>)
    requires ValuesListing(m, keys, elems)
    ensures forall k :: k in m ==> m[k] in elems
    ensures forall i :: 0 <= i < |elems| ==> elems[i] in m.Values
    ensures KeyConsistent(toKey, m) ==> Collect(toKey, elems) == m
  {
    forall k | k in m ensures m[k] in elems {
      var i :| 0 <= i < |keys| && keys[i] == k;
      assert elems[i] == m[k];
    }
    forall i | 0 <= i < |elems| ensures elems[i] in m.Values {
      assert m[keys[i]] == elems[i];
    }
    if KeyConsistent(toKey, m) {
      RoundTrip(toKey, m, elems);
    }
  }
}
