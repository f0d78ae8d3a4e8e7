/**
 * A JavaScript `Map`: a finite map whose iteration order is the order in which
 * keys were first inserted. `keys` holds that order, `entries` the bindings.
 */
module OrderedMaps {
  import opened Options
  import opened Sequences

  /** No element occurs twice. Stated recursively, so that it unfolds one step at a time. */
  ghost predicate Distinct<K>(s: seq<K>)
  {
    s == [] || (s[0] !in s[1..] && Distinct(s[1..]))
  }

  lemma {:induction false} DistinctAppend<K>(s: seq<K>, k: K)
    requires Distinct(s) && k !in s
    ensures Distinct(s + [k])
  {
    if s != [] {
      assert (s + [k])[1..] == s[1..] + [k];
      DistinctAppend(s[1..], k);
    }
  }

  /** In a sequence without repetitions, no element occurs before its own position. */
  lemma {:induction false} DistinctAt<K>(s: seq<K>, i: nat)
    requires Distinct(s) && i < |s|
    ensures s[i] !in s[..i]
  {
    if i > 0 {
      DistinctAt(s[1..], i - 1);
      assert s[..i] == [s[0]] + s[1..][..i - 1];
    }
  }

  /** The values bound to `ks` in `m`, in the order of `ks`. */
  function ValuesOf<K, V>(ks: seq<K>, m: map<K, V>): (r: seq<V>)
    requires forall i :: 0 <= i < |ks| ==> ks[i] in m
    ensures |r| == |ks|
    ensures forall i :: 0 <= i < |ks| ==> r[i] == m[ks[i]]
  {
    if ks == [] then [] else [m[ks[0]]] + ValuesOf(ks[1..], m)
  }

  datatype OrderedMap<K, V> = OrderedMap(keys: seq<K>, entries: map<K, V>)
  {
    /** Every key is listed exactly once in the insertion order. */
    ghost predicate Valid()
    {
      && Distinct(keys)
      && (forall i :: 0 <= i < |keys| ==> keys[i] in entries)
      && (forall k :: k in entries ==> k in keys)
    }

    /** `Array.from(m.values())`. */
    function Values(): (r: seq<V>)
      requires Valid()
      ensures |r| == |keys|
      ensures forall i :: 0 <= i < |keys| ==> r[i] == entries[keys[i]]
    {
      ValuesOf(keys, entries)
    }

    /** `m.get(k)`. */
    function Get(k: K): (r: Option<V>)
      ensures r.Some? <==> k in entries
      ensures r.Some? ==> r.value == entries[k]
    {
      if k in entries then Some(entries[k]) else None
    }

    /** `m.set(k, v)`: a new key goes last; an existing key keeps its place. */
    function Set(k: K, v: V): (r: OrderedMap<K, V>)
      requires Valid()
      ensures r.Valid()
      ensures r.entries == entries[k := v]
      ensures k !in entries ==> r.keys == keys + [k]
      ensures k in entries ==> r.keys == keys
    {
      if k in entries then OrderedMap(keys, entries[k := v])
      else
        DistinctAppend(keys, k);
        OrderedMap(keys + [k], entries[k := v])
    }

    /** Deleting every key of `ks`, keeping the order of the others. */
    function DeleteKeys(ks: set<K>): (r: OrderedMap<K, V>)
      requires Valid()
      ensures r.Valid()
      ensures r.entries == entries - ks
    {
      var r := OrderedMap(Filter(keys, k => k !in ks), entries - ks);
      assert Distinct(r.keys) by { FilterDistinct(keys, k => k !in ks); }
      r
    }

    /** `m.delete(k)`. */
    function Delete(k: K): (r: OrderedMap<K, V>)
      requires Valid()
      ensures r.Valid()
      ensures r.entries == entries - {k}
    {
      DeleteKeys({k})
    }
  }

  /** `new Map()`. */
  function Empty<K, V>(): (r: OrderedMap<K, V>)
    ensures r.Valid() && r.Values() == []
  {
    OrderedMap([], map[])
  }

  lemma {:induction false} FilterDistinct<K>(s: seq<K>, p: K -> bool)
    requires Distinct(s)
    ensures Distinct(Filter(s, p))
  {
    if s != [] {
      FilterDistinct(s[1..], p);
      if p(s[0]) {
        assert s[0] !in Filter(s[1..], p);
        assert ([s[0]] + Filter(s[1..], p))[1..] == Filter(s[1..], p);
      }
    }
  }

  /** Setting a fresh key appends its value to the iteration order. */
  lemma SetFreshValues<K, V>(m: OrderedMap<K, V>, k: K, v: V)
    requires m.Valid() && k !in m.entries
    ensures m.Set(k, v).Values() == m.Values() + [v]
  {
    var r := m.Set(k, v);
    assert forall i :: 0 <= i < |m.keys| ==> m.keys[i] != k;
  }

  lemma DeleteNoKeys<K, V>(m: OrderedMap<K, V>)
    requires m.Valid()
    ensures m.DeleteKeys({}) == m
  {
    var none: set<K> := {};
    FilterAll(m.keys, k => k !in none);
    assert m.entries - none == m.entries;
    assert m.DeleteKeys(none).keys == m.keys;
  }

  /** Deleting key by key adds up to deleting them all at once. */
  lemma DeleteKeysTwice<K, V>(m: OrderedMap<K, V>, s: set<K>, t: set<K>)
    requires m.Valid()
    ensures m.DeleteKeys(s).DeleteKeys(t) == m.DeleteKeys(s + t)
  {
    FilterFilter(m.keys, k => k !in s, k => k !in t, k => k !in s + t);
  }

  /**
   * Deleting the keys whose values fail `keep` leaves, in order, exactly the
   * values that pass it.
   */
  lemma ValuesDeleteKeys<K, V>(m: OrderedMap<K, V>, s: set<K>, keep: V -> bool)
    requires m.Valid()
    requires forall k :: k in m.entries ==> (k in s <==> !keep(m.entries[k]))
    ensures m.DeleteKeys(s).Values() == Filter(m.Values(), keep)
  {
    ValuesOfFilter(m.keys, m.entries, s, keep);
  }

  lemma {:induction false} ValuesOfFilter<K, V>(ks: seq<K>, m: map<K, V>, s: set<K>, keep: V -> bool)
    requires forall i :: 0 <= i < |ks| ==> ks[i] in m
    requires forall k :: k in m ==> (k in s <==> !keep(m[k]))
    ensures ValuesOf(Filter(ks, k => k !in s), m - s) == Filter(ValuesOf(ks, m), keep)
  {
    if ks != [] {
      ValuesOfFilter(ks[1..], m, s, keep);
      assert ValuesOf(ks, m)[1..] == ValuesOf(ks[1..], m);
      if ks[0] !in s {
        var f := Filter(ks, k => k !in s);
        assert f[0] == ks[0] && f[1..] == Filter(ks[1..], k => k !in s);
      }
    }
  }
}
