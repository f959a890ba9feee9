/**
 * The `StructMap` that `#[VariantStore(datastruct = "StructMap")]` generates:
 * a record with one `Option<Enum>` field per enum variant, named after the
 * variant's key. Field `i` belongs to the `i`-th declared variant, so a key
 * of the generated key enum is a field index, and `to_key` of a value is
 * the index of its variant's field (`variantOf`).
 *
 * The record is an `array<Option<V>>`; the generated methods are methods on
 * a class that owns it. The wire form is the sequence of the values of the
 * occupied fields; it is read back as a sequence of `Option` values, and a
 * self-describing format reads a plain value as `Some`.
 */
module StructMapStore {
  import opened Wrappers

  /** Every value has a field: the generated matches are exhaustive. */
  ghost predicate Covers<V(!new)>(variantOf: V -> nat, n: nat) {
    forall v :: variantOf(v) < n
  }

  /** Every occupied field holds a value of its own variant. */
  ghost predicate SlotsConsistent<V>(variantOf: V -> nat, s: seq<Option<V>>) {
    forall i :: 0 <= i < |s| && s[i].Some? ==> variantOf(s[i].value) == i
  }

  /** The record `Default` builds: `n` fields, all `None`. */
  function Empty<V>(n: nat): (r: seq<Option<V>>)
    ensures |r| == n && forall i :: 0 <= i < n ==> r[i].None?
  {
    seq(n, _ => None)
  }

  /** Values as they are read back by a self-describing format: each one `Some`. */
  function Wrap<V>(vs: seq<V>): (r: seq<Option<V>>)
    ensures |r| == |vs| && forall i :: 0 <= i < |vs| ==> r[i] == Some(vs[i])
  {
    seq(|vs|, i requires 0 <= i < |vs| => Some(vs[i]))
  }

  lemma WrapAppend<V>(a: seq<V>, b: seq<V>)
    ensures Wrap(a + b) == Wrap(a) + Wrap(b)
  {
    assert |Wrap(a + b)| == |Wrap(a) + Wrap(b)|;
    forall i | 0 <= i < |a| + |b| ensures Wrap(a + b)[i] == (Wrap(a) + Wrap(b))[i] {
      if i < |a| { assert (a + b)[i] == a[i]; } else { assert (a + b)[i] == b[i - |a|]; }
    }
  }

  /**
   * The values of the occupied fields, in field (declaration) order: what
   * the generated `serialize` emits. Every emitted value comes from a
   * `Some` field, and there are never more of them than fields.
   */
  function Present<V>(s: seq<Option<V>>): (r: seq<V>)
    ensures |r| <= |s|
    ensures forall x :: x in r ==> Some(x) in s
  {
    if s == [] then []
    else
      var init := Present(s[..|s| - 1]);
      assert forall x :: x in init ==> Some(x) in s[..|s| - 1];
      match s[|s| - 1]
      case Some(v) => init + [v]
      case None => init
  }

  /**
   * Serialisation loses nothing but the empty fields: it emits as many
   * values as there are fields exactly when every field is occupied.
   */
  lemma {:induction false} PresentFull<V>(s: seq<Option<V>>)
    ensures |Present(s)| == |s| <==> forall i :: 0 <= i < |s| ==> s[i].Some?
  {
    if s != [] {
      var init := s[..|s| - 1];
      PresentFull(init);
      if forall i :: 0 <= i < |s| ==> s[i].Some? {
        assert forall i :: 0 <= i < |init| ==> init[i].Some? by {
          forall i | 0 <= i < |init| ensures init[i].Some? { assert init[i] == s[i]; }
        }
      } else {
        var i :| 0 <= i < |s| && s[i].None?;
        if i < |init| {
          assert init[i] == s[i];
        }
      }
    }
  }

  /**
   * In a consistent record the emitted values are in strictly ascending
   * field order, that is in variant declaration order, and each lies below
   * the number of fields.
   */
  lemma {:induction false} PresentInDeclarationOrder<V>(variantOf: V -> nat, s: seq<Option<V>>)
    requires SlotsConsistent(variantOf, s)
    ensures forall x :: x in Present(s) ==> variantOf(x) < |s|
    ensures forall i, j :: 0 <= i < j < |Present(s)| ==> variantOf(Present(s)[i]) < variantOf(Present(s)[j])
  {
    if s != [] {
      var init := s[..|s| - 1];
      assert SlotsConsistent(variantOf, init) by {
        forall i | 0 <= i < |init| && init[i].Some? ensures variantOf(init[i].value) == i {
          assert init[i] == s[i];
        }
      }
      PresentInDeclarationOrder(variantOf, init);
      var p := Present(init);
      if s[|s| - 1].Some? {
        var q := p + [s[|s| - 1].value];
        assert Present(s) == q;
        forall i, j | 0 <= i < j < |q| ensures variantOf(q[i]) < variantOf(q[j]) {
          assert q[i] == p[i];
          if j < |p| {
            assert q[j] == p[j];
          } else {
            assert p[i] in p;
          }
        }
        forall x | x in q ensures variantOf(x) < |s| {
          if x in p {
          } else {
            assert x == s[|s| - 1].value;
          }
        }
      }
    }
  }

  /**
   * The generated `visit_seq` loop over a record `s`: each `Some(v)` is
   * stored in `v`'s own field, overwriting what was there (the last one
   * wins), and each `None` is skipped. A consistent record stays consistent.
   */
  function Absorb<V(!new)>(variantOf: V -> nat, s: seq<Option<V>>, elems: seq<Option<V>>): (r: seq<Option<V>>)
    requires Covers(variantOf, |s|)
    ensures |r| == |s|
    ensures SlotsConsistent(variantOf, s) ==> SlotsConsistent(variantOf, r)
  {
    if elems == [] then s
    else
      var t := Absorb(variantOf, s, elems[..|elems| - 1]);
      match elems[|elems| - 1]
      case Some(v) => t[variantOf(v) := Some(v)]
      case None => t
  }

  /** Reading back depends only on the `Some` elements, not on the `None`s between them. */
  lemma {:induction false} AbsorbIgnoresNone<V(!new)>(variantOf: V -> nat, s: seq<Option<V>>, elems: seq<Option<V>>)
    requires Covers(variantOf, |s|)
    ensures Absorb(variantOf, s, elems) == Absorb(variantOf, s, Wrap(Present(elems)))
  {
    if elems != [] {
      var init := elems[..|elems| - 1];
      AbsorbIgnoresNone(variantOf, s, init);
      var w := Wrap(Present(init));
      match elems[|elems| - 1]
      case Some(v) =>
        WrapAppend(Present(init), [v]);
        assert Wrap(Present(elems)) == w + [Some(v)];
        assert (w + [Some(v)])[..|w|] == w;
      case None =>
    }
  }

  /**
   * Field `j` after reading back: the last `Some` element of `j`'s variant,
   * or the field's old content when no element belongs to `j`.
   */
  lemma {:induction false} AbsorbSlot<V(!new)>(variantOf: V -> nat, s: seq<Option<V>>, elems: seq<Option<V>>, j: nat)
    requires Covers(variantOf, |s|) && j < |s|
    ensures (forall i :: 0 <= i < |elems| && elems[i].Some? ==> variantOf(elems[i].value) != j) ==>
              Absorb(variantOf, s, elems)[j] == s[j]
    ensures forall i :: (0 <= i < |elems| && elems[i].Some? && variantOf(elems[i].value) == j &&
                         forall i' :: i < i' < |elems| && elems[i'].Some? ==> variantOf(elems[i'].value) != j) ==>
              Absorb(variantOf, s, elems)[j] == elems[i]
  {
    if elems != [] {
      var init := elems[..|elems| - 1];
      AbsorbSlot(variantOf, s, init, j);
      assert forall i :: 0 <= i < |init| ==> init[i] == elems[i];
    }
  }

  /**
   * Round trip: reading back the serialised form of a consistent record
   * into a default record rebuilds the record.
   */
  lemma RoundTrip<V(!new)>(variantOf: V -> nat, s: seq<Option<V>>)
    requires Covers(variantOf, |s|) && SlotsConsistent(variantOf, s)
    ensures Absorb(variantOf, Empty(|s|), Wrap(Present(s))) == s
  {
    RoundTripPrefix(variantOf, s, |s|);
    assert s[..|s|] == s;
  }

  lemma {:induction false} RoundTripPrefix<V(!new)>(variantOf: V -> nat, s: seq<Option<V>>, j: nat)
    requires Covers(variantOf, |s|) && SlotsConsistent(variantOf, s) && j <= |s|
    ensures Absorb(variantOf, Empty(|s|), Wrap(Present(s[..j]))) == s[..j] + Empty(|s| - j)
  {
    if j == 0 {
      assert s[..0] == [];
    } else {
      RoundTripPrefix(variantOf, s, j - 1);
      RoundTripStep(variantOf, s, j);
    }
  }

  /** One field more: the prefix read back so far grows by field `j - 1`. */
  lemma RoundTripStep<V(!new)>(variantOf: V -> nat, s: seq<Option<V>>, j: nat)
    requires Covers(variantOf, |s|) && SlotsConsistent(variantOf, s) && 0 < j <= |s|
    requires Absorb(variantOf, Empty(|s|), Wrap(Present(s[..j - 1]))) == s[..j - 1] + Empty(|s| - (j - 1))
    ensures Absorb(variantOf, Empty(|s|), Wrap(Present(s[..j]))) == s[..j] + Empty(|s| - j)
  {
    var n := |s|;
    var p := Present(s[..j - 1]);
    assert s[..j] == s[..j - 1] + [s[j - 1]];
    PresentSnoc(s[..j - 1], s[j - 1]);
    if s[j - 1].Some? {
      SomeSlot(variantOf, s, j, p);
    } else {
      NoneSlot(s, j, n);
    }
  }

  /** An occupied field `j - 1` is refilled by its value, the next one read back. */
  lemma SomeSlot<V(!new)>(variantOf: V -> nat, s: seq<Option<V>>, j: nat, p: seq<V>)
    requires Covers(variantOf, |s|) && 0 < j <= |s| && s[j - 1].Some? && variantOf(s[j - 1].value) == j - 1
    requires Absorb(variantOf, Empty(|s|), Wrap(p)) == s[..j - 1] + Empty(|s| - (j - 1))
    ensures Absorb(variantOf, Empty(|s|), Wrap(p + [s[j - 1].value])) == s[..j] + Empty(|s| - j)
  {
    var n := |s|;
    var v := s[j - 1].value;
    WrapAppend(p, [v]);
    assert Wrap(p + [v]) == Wrap(p) + [Some(v)];
    AbsorbSnoc(variantOf, Empty(n), Wrap(p), Some(v));
    FillSlot(s, j, Empty(n - (j - 1)));
    assert Empty<V>(n - (j - 1))[1..] == Empty(n - j);
  }

  /** An empty field `j - 1` extends the prefix without changing the record read back. */
  lemma NoneSlot<V>(s: seq<Option<V>>, j: nat, n: nat)
    requires 0 < j <= |s| == n && s[j - 1].None?
    ensures s[..j - 1] + Empty(n - (j - 1)) == s[..j] + Empty(n - j)
  {
    var l := s[..j - 1] + Empty(n - (j - 1));
    var r := s[..j] + Empty(n - j);
    assert |l| == |r|;
    forall i | 0 <= i < |l| ensures l[i] == r[i] {
      if i < j - 1 {
      } else if i == j - 1 {
      } else {
        assert l[i] == Empty<V>(n - (j - 1))[i - (j - 1)];
        assert r[i] == Empty<V>(n - j)[i - j];
      }
    }
  }

  lemma PresentSnoc<V>(s: seq<Option<V>>, x: Option<V>)
    ensures Present(s + [x]) == if x.Some? then Present(s) + [x.value] else Present(s)
  {
    assert (s + [x])[..|s|] == s;
  }

  lemma AbsorbSnoc<V(!new)>(variantOf: V -> nat, s: seq<Option<V>>, elems: seq<Option<V>>, x: Option<V>)
    requires Covers(variantOf, |s|)
    ensures Absorb(variantOf, s, elems + [x]) ==
              if x.Some? then Absorb(variantOf, s, elems)[variantOf(x.value) := x] else Absorb(variantOf, s, elems)
  {
    assert (elems + [x])[..|elems|] == elems;
  }

  /** Filling slot `j - 1` of `s[..j - 1] + tail` with `s[j - 1]` gives `s[..j] + tail[1..]`. */
  lemma FillSlot<V>(s: seq<Option<V>>, j: nat, tail: seq<Option<V>>)
    requires 0 < j <= |s| && |tail| == |s| - (j - 1) && forall i :: 0 <= i < |tail| ==> tail[i].None?
    ensures (s[..j - 1] + tail)[j - 1 := s[j - 1]] == s[..j] + tail[1..]
  {
    var l := (s[..j - 1] + tail)[j - 1 := s[j - 1]];
    var r := s[..j] + tail[1..];
    assert |l| == |r|;
    forall i | 0 <= i < |l| ensures l[i] == r[i] {
      if i < j - 1 {
      } else if i == j - 1 {
      } else {
        assert l[i] == tail[i - (j - 1)];
        assert r[i] == tail[1..][i - j];
      }
    }
  }

  class StructMap<V(==, !new)> {
    /** `MapValue::to_key`, as the index of the value's field. */
    const variantOf: V -> nat
    /** The generated fields, one per variant in declaration order. */
    const fields: array<Option<V>>

    /** The generated matches cover every value. */
    ghost predicate Valid() {
      Covers(variantOf, fields.Length)
    }

    /** The generated `Default`: every field `None`. */
    constructor Default(variantOf: V -> nat, n: nat)
      requires Covers(variantOf, n)
      ensures Valid() && this.variantOf == variantOf && fresh(fields)
      ensures fields[..] == Empty(n)
    {
      this.variantOf := variantOf;
      fields := new Option<V>[n](_ => None);
    }

    /**
     * `get`, `get_mut`, `Index` and `IndexMut`: total, they reach field
     * `key` and return its `Option`. In a consistent record an occupied
     * field holds a value of its own variant.
     */
    function Get(key: nat): (r: Option<V>)
      reads fields
      requires key < fields.Length
      ensures r == fields[key]
      ensures SlotsConsistent(variantOf, fields[..]) && r.Some? ==> variantOf(r.value) == key
    {
      assert fields[..][key] == fields[key];
      fields[key]
    }

    /**
     * `insert`: `mem::replace` of the value's own field with `Some(value)`;
     * returns the old content and leaves every other field alone. Right
     * after it, `get(to_key(value))` is `Some(value)`.
     */
    method Insert(value: V) returns (previous: Option<V>)
      requires Valid()
      modifies fields
      ensures previous == old(fields[variantOf(value)])
      ensures fields[..] == old(fields[..])[variantOf(value) := Some(value)]
      ensures Get(variantOf(value)) == Some(value)
      ensures SlotsConsistent(variantOf, old(fields[..])) ==> SlotsConsistent(variantOf, fields[..])
    {
      var key := variantOf(value);
      previous := fields[key];
      fields[key] := Some(value);
    }

    /** `remove`: `mem::take` of field `key`; returns its content and leaves it `None`. */
    method Remove(key: nat) returns (removed: Option<V>)
      requires key < fields.Length
      modifies fields
      ensures removed == old(fields[key])
      ensures fields[..] == old(fields[..])[key := None]
      ensures SlotsConsistent(variantOf, old(fields[..])) ==> SlotsConsistent(variantOf, fields[..])
    {
      removed := fields[key];
      fields[key] := None;
    }

    /**
     * Assignment through the reference `get_mut` or `IndexMut` returns:
     * any content may be written, so the record stays consistent exactly
     * when the new content is empty or of the field's own variant.
     */
    method Assign(key: nat, content: Option<V>)
      requires key < fields.Length
      modifies fields
      ensures fields[..] == old(fields[..])[key := content]
      ensures SlotsConsistent(variantOf, old(fields[..])) ==>
                (SlotsConsistent(variantOf, fields[..]) <==> content.None? || variantOf(content.value) == key)
    {
      fields[key] := content;
      assert fields[..][key] == content;
    }

    /**
     * The generated `serialize`, as written: it announces the number of
     * variants as the sequence length, then emits the value of each
     * occupied field in declaration order. The announced length is the
     * number of emitted values only when every field is occupied.
     */
    method Serialize() returns (lenHint: nat, elems: seq<V>)
      ensures lenHint == fields.Length
      ensures elems == Present(fields[..])
      ensures |elems| == lenHint <==> forall i :: 0 <= i < fields.Length ==> fields[i].Some?
      ensures Valid() && SlotsConsistent(variantOf, fields[..]) ==>
                Absorb(variantOf, Empty(fields.Length), Wrap(elems)) == fields[..]
    {
      lenHint := fields.Length;
      elems := Emit();
      PresentFull(fields[..]);
      if Valid() && SlotsConsistent(variantOf, fields[..]) {
        RoundTrip(variantOf, fields[..]);
      }
    }

    /**
     * `serialize` with the length it announces equal to what it emits: a
     * first pass counts the occupied fields.
     */
    method SerializeExact() returns (lenHint: nat, elems: seq<V>)
      ensures lenHint == |elems|
      ensures elems == Present(fields[..])
      ensures Valid() && SlotsConsistent(variantOf, fields[..]) ==>
                Absorb(variantOf, Empty(fields.Length), Wrap(elems)) == fields[..]
    {
      var count := 0;
      for i := 0 to fields.Length
        invariant count == |Present(fields[..i])|
      {
        assert fields[..i + 1][..i] == fields[..i];
        if fields[i].Some? {
          count := count + 1;
        }
      }
      assert fields[..fields.Length] == fields[..];
      lenHint := count;
      elems := Emit();
      if Valid() && SlotsConsistent(variantOf, fields[..]) {
        RoundTrip(variantOf, fields[..]);
      }
    }

    /** The `if let Some(ref value) = self.field { seq.serialize_element(value)? }` lines, in field order. */
    method Emit() returns (elems: seq<V>)
      ensures elems == Present(fields[..])
    {
      elems := [];
      for i := 0 to fields.Length
        invariant elems == Present(fields[..i])
      {
        assert fields[..i + 1][..i] == fields[..i];
        match fields[i]
        case Some(v) => elems := elems + [v];
        case None =>
      }
      assert fields[..fields.Length] == fields[..];
    }

    /**
     * The generated visitor's `visit_seq`: starts from `default()` and
     * stores each `Some(v)` element in `v`'s field, the last one winning;
     * `None` elements are skipped.
     */
    static method VisitSeq(variantOf: V -> nat, n: nat, elems: seq<Option<V>>) returns (result: StructMap<V>)
      requires Covers(variantOf, n)
      ensures fresh(result) && fresh(result.fields)
      ensures result.Valid() && result.variantOf == variantOf
      ensures result.fields[..] == Absorb(variantOf, Empty(n), elems)
      ensures SlotsConsistent(variantOf, result.fields[..])
    {
      result := new StructMap.Default(variantOf, n);
      for i := 0 to |elems|
        invariant result.fields[..] == Absorb(variantOf, Empty(n), elems[..i])
        invariant fresh(result.fields)
      {
        assert elems[..i + 1][..i] == elems[..i];
        match elems[i]
        case Some(v) => result.fields[variantOf(v)] := elems[i];
        case None =>
      }
      assert elems[..|elems|] == elems;
    }
  }

  /**
   * A record of two fields holding only the first variant: `serialize`
   * announces two elements and emits one.
   */
  lemma LenHintMismatch()
    ensures |Present([Some(0), None])| == 1 < 2
  {
    assert [Some(0), None][..1] == [Some(0)];
    assert [Some(0)][..0] == [];
  }
}
