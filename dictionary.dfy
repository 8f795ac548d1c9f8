/**
 The key/value map that the extension methods work on (a
 System.Collections.Concurrent.ConcurrentDictionary), reduced to the
 finite-map behaviour they use: lookup (TryGetValue), insert-or-overwrite
 (AddOrUpdate) and enumeration of the entries.
 */
module Dictionary {
  import opened Wrappers

  /** The map `m` with `key` bound to `value`, whether or not `key` was bound before. */
  function Upsert<K, V>(m: map<K, V>, key: K, value: V): (r: map<K, V>)
    ensures r.Keys == m.Keys + {key}
    ensures r[key] == value
    ensures forall k :: k in m && k != key ==> r[k] == m[k]
  {
    m[key := value]
  }

  /** No key occurs twice in the entry sequence `es`. */
  ghost predicate DistinctKeys<K, V>(es: seq<(K, V)>)
  {
    forall i, j :: 0 <= i < j < |es| ==> es[i].0 != es[j].0
  }

  /** `es` lists the entries of `m`: every element is an entry of `m`, and every key of `m` occurs in `es`. */
  ghost predicate Enumerates<K, V>(es: seq<(K, V)>, m: map<K, V>)
  {
    && (forall i :: 0 <= i < |es| ==> es[i].0 in m && m[es[i].0] == es[i].1)
    && (forall k :: k in m ==> exists i :: 0 <= i < |es| && es[i].0 == k)
  }

  /** A dictionary object; the extension methods update it in place and share it by reference. */
  class Dict<K(==), V> {
    /** The entries currently stored. */
    var contents: map<K, V>

    /** `new ConcurrentDictionary<TKey, TValue>()`: a fresh, empty dictionary. */
    constructor ()
      ensures contents == map[]
    {
      contents := map[];
    }

    /** TryGetValue: the value stored under `key`, or None when the key is absent. */
    function TryGetValue(key: K): (r: Option<V>)
      reads this
      ensures r.Some? <==> key in contents
      ensures r.Some? ==> r.value == contents[key]
    {
      if key in contents then Some(contents[key]) else None
    }

    /**
     AddOrUpdate(key, value, (x, y) => value): `key` ends up bound to `value`
     whether it was new or present; no other entry changes.
     */
    method AddOrUpdate(key: K, value: V)
      modifies this
      ensures contents == Upsert(old(contents), key, value)
    {
      contents := contents[key := value];
    }

    /**
     Enumerating the dictionary: each stored entry exactly once, in an order
     callers may not rely on.
     */
    method Entries() returns (es: seq<(K, V)>)
      ensures DistinctKeys(es)
      ensures Enumerates(es, contents)
      ensures |es| == |contents|
    {
      es := [];
      var rest := contents.Keys;
      while rest != {}
        invariant rest <= contents.Keys
        invariant |es| + |rest| == |contents|
        invariant forall i :: 0 <= i < |es| ==> es[i].0 in contents && es[i].0 !in rest && contents[es[i].0] == es[i].1
        invariant forall k :: k in contents && k !in rest ==> exists i :: 0 <= i < |es| && es[i].0 == k
        invariant DistinctKeys(es)
        decreases rest
      {
        var k :| k in rest;
        ghost var before := es;
        es := es + [(k, contents[k])];
        rest := rest - {k};
        assert es[|before|].0 == k;
        assert forall i :: 0 <= i < |before| ==> es[i] == before[i];
      }
    }
  }
}
