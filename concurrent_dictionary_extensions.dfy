/**
 The null-safe helpers over a concurrent dictionary: GetValue (lookup with a
 default), SetValue (insert-or-overwrite) and CopyTo (upsert every entry of
 one dictionary into another). An absent dictionary is a null `Dict?`.
 */
module ConcurrentDictionaryExtensions {
  import opened Wrappers
  import opened Dictionary

  /**
   GetValue: the value stored under `key`, or `defaultValue` when the key is
   absent or there is no dictionary at all. Reading never changes the dictionary.
   */
  function GetValue<K(==), V>(dictionary: Dict?<K, V>, key: K, defaultValue: V): (r: V)
    reads dictionary
    ensures dictionary == null ==> r == defaultValue
    ensures dictionary != null && key in dictionary.contents ==> r == dictionary.contents[key]
    ensures dictionary != null && key !in dictionary.contents ==> r == defaultValue
  {
    if dictionary == null then defaultValue
    else match dictionary.TryGetValue(key)
      case Some(v) => v
      case None => defaultValue
  }

  /**
   SetValue: on a present dictionary, binds `key` to `value` in place and
   returns that same dictionary; on an absent one, stores nothing and returns a
   fresh, empty dictionary.
   */
  method SetValue<K(==), V>(dictionary: Dict?<K, V>, key: K, value: V) returns (r: Dict<K, V>)
    modifies dictionary
    ensures dictionary == null ==> fresh(r) && r.contents == map[]
    ensures dictionary != null ==> r == dictionary && r.contents == Upsert(old(dictionary.contents), key, value)
    ensures dictionary != null ==> forall d :: GetValue(r, key, d) == value
  {
    if dictionary == null {
      r := new Dict();
      return;
    }
    dictionary.AddOrUpdate(key, value);
    r := dictionary;
  }

  /** Upserting the same entry twice leaves the same map as upserting it once. */
  lemma UpsertIdempotent<K, V>(m: map<K, V>, key: K, value: V)
    ensures Upsert(Upsert(m, key, value), key, value) == Upsert(m, key, value)
  {
  }

  /** The map that results from upserting the entries of `es` into `m`, first to last. */
  function UpsertAll<K, V>(m: map<K, V>, es: seq<(K, V)>): map<K, V>
  {
    if es == [] then m
    else
      var n := |es| - 1;
      Upsert(UpsertAll(m, es[..n]), es[n].0, es[n].1)
  }

  /** Dropping the last entry of an enumeration whose key is listed earlier too leaves an enumeration of the same map. */
  lemma FrontEnumeratesSame<K, V>(es: seq<(K, V)>, source: map<K, V>, i: nat)
    requires Enumerates(es, source)
    requires i < |es| - 1 && es[i].0 == es[|es| - 1].0
    ensures Enumerates(es[..|es| - 1], source)
  {
  }

  /** Dropping the last entry of an enumeration whose key is listed nowhere else leaves an enumeration of the map without that key. */
  lemma FrontEnumeratesRest<K, V>(es: seq<(K, V)>, source: map<K, V>)
    requires Enumerates(es, source) && |es| > 0
    requires forall i :: 0 <= i < |es| - 1 ==> es[i].0 != es[|es| - 1].0
    ensures Enumerates(es[..|es| - 1], source - {es[|es| - 1].0})
  {
  }

  /** Upserting an entry of `source` after overriding `m` by `source`, or by `source` without that key, gives `m` overridden by `source`. */
  lemma UpsertOverride<K, V>(m: map<K, V>, source: map<K, V>, k: K)
    requires k in source
    ensures Upsert(m + source, k, source[k]) == m + source
    ensures Upsert(m + (source - {k}), k, source[k]) == m + source
  {
  }

  /**
   Upserting the entries of an enumeration of `source` into `m` yields `m`
   overridden by `source`, in whatever order the enumeration lists them.
   */
  lemma {:induction false} UpsertAllOverrides<K, V>(m: map<K, V>, es: seq<(K, V)>, source: map<K, V>)
    requires Enumerates(es, source)
    ensures UpsertAll(m, es) == m + source
  {
    if es == [] {
      assert forall k :: k !in source;
      assert source == map[];
    } else {
      var n := |es| - 1;
      var k, v := es[n].0, es[n].1;
      if i :| 0 <= i < n && es[i].0 == k {
        FrontEnumeratesSame(es, source, i);
        UpsertAllOverrides(m, es[..n], source);
        UpsertOverride(m, source, k);
      } else {
        FrontEnumeratesRest(es, source);
        UpsertAllOverrides(m, es[..n], source - {k});
        UpsertOverride(m, source, k);
      }
    }
  }

  /** No key of `es` is listed with two different values. */
  ghost predicate Functional<K, V>(es: seq<(K, V)>)
  {
    forall i, j :: 0 <= i < |es| && 0 <= j < |es| && es[i].0 == es[j].0 ==> es[i].1 == es[j].1
  }

  /** An entry sequence that gives each key one value enumerates the map built from it. */
  lemma {:induction false} UpsertAllEnumerated<K, V>(es: seq<(K, V)>)
    requires Functional(es)
    ensures Enumerates(es, UpsertAll(map[], es))
  {
    if es != [] {
      var n := |es| - 1;
      var front := es[..n];
      var k, v := es[n].0, es[n].1;
      assert forall i :: 0 <= i < n ==> front[i] == es[i];
      assert Functional(front);
      UpsertAllEnumerated(front);
      var before := UpsertAll(map[], front);
      var after := UpsertAll(map[], es);
      assert after == before[k := v];
      forall i | 0 <= i < |es| ensures es[i].0 in after && after[es[i].0] == es[i].1 {
        if es[i].0 != k {
          assert front[i] == es[i];
        }
      }
      forall k' | k' in after ensures exists i :: 0 <= i < |es| && es[i].0 == k' {
        if k' == k {
          assert es[n].0 == k';
        } else {
          var i :| 0 <= i < n && front[i].0 == k';
          assert es[i].0 == k';
        }
      }
    }
  }

  /**
   Order does not matter: when no key is listed with two different values (in
   particular when the keys are distinct, as a dictionary's are), upserting the
   entries in any permuted order gives the same map.
   */
  lemma UpsertAllOrderIndependent<K, V>(m: map<K, V>, es: seq<(K, V)>, reordered: seq<(K, V)>)
    requires Functional(es)
    requires multiset(reordered) == multiset(es)
    ensures UpsertAll(m, reordered) == UpsertAll(m, es)
  {
    var source := UpsertAll(map[], es);
    UpsertAllEnumerated(es);
    forall i | 0 <= i < |reordered| ensures reordered[i].0 in source && source[reordered[i].0] == reordered[i].1 {
      assert reordered[i] in multiset(es);
    }
    forall k | k in source ensures exists i :: 0 <= i < |reordered| && reordered[i].0 == k {
      var j :| 0 <= j < |es| && es[j].0 == k;
      assert es[j] in multiset(reordered);
      var i :| 0 <= i < |reordered| && reordered[i] == es[j];
    }
    UpsertAllOverrides(m, es, source);
    UpsertAllOverrides(m, reordered, source);
  }

  /**
   CopyTo: upserts every entry of `dictionary` into `target` and returns
   `dictionary` (a fresh empty dictionary when it is absent). With no target,
   nothing changes.
   */
  method CopyTo<K(==), V>(dictionary: Dict?<K, V>, target: Dict?<K, V>) returns (r: Dict<K, V>)
    modifies target
    ensures dictionary != null ==> r == dictionary && r.contents == old(dictionary.contents)
    ensures dictionary == null ==> fresh(r) && r.contents == map[]
    ensures target != null && dictionary != null ==> target.contents == old(target.contents) + old(dictionary.contents)
    ensures target != null && dictionary == null ==> target.contents == old(target.contents)
    ensures target != null ==> forall k :: k in old(target.contents) && (dictionary == null || k !in old(dictionary.contents)) ==>
      k in target.contents && target.contents[k] == old(target.contents[k])
  {
    if dictionary == null {
      r := new Dict();
    } else {
      r := dictionary;
    }
    if target == null {
      return;
    }
    var es := r.Entries();
    ghost var source := r.contents;
    ghost var start := target.contents;
    UpsertEach(target, es);
    UpsertAllOverrides(start, es, source);
    if r == target {
      // Copying a dictionary onto itself rewrites each entry with its own value.
      assert start + source == source;
    }
  }

  /** The per-entry loop of CopyTo: `target.SetValue(key, value)` for each entry of `es`, in order. */
  method UpsertEach<K(==), V>(target: Dict<K, V>, es: seq<(K, V)>)
    modifies target
    ensures target.contents == UpsertAll(old(target.contents), es)
  {
    var i := 0;
    while i < |es|
      invariant 0 <= i <= |es|
      invariant target.contents == UpsertAll(old(target.contents), es[..i])
    {
      assert es[..i + 1][..i] == es[..i];
      var _ := SetValue(target, es[i].0, es[i].1);
      i := i + 1;
    }
    assert es[..i] == es;
  }

  /** A sample scenario: a dictionary holding {"a": 1, "b": 2}, read with and without a hit, written, read back. */
  method ExampleGetAndSet()
  {
    var d := new Dict<string, int>();
    var same := SetValue(d, "a", 1);
    same := SetValue(d, "b", 2);
    assert GetValue(d, "a", 0) == 1;
    assert GetValue(d, "c", -1) == -1;
    ghost var before := d.contents;
    same := SetValue(d, "c", 3);
    assert same == d && GetValue(d, "c", -1) == 3;
    // Setting the same key to the same value again changes nothing.
    ghost var once := d.contents;
    same := SetValue(d, "c", 3);
    UpsertIdempotent(before, "c", 3);
    assert d.contents == once;
  }

  /** The null policies of GetValue and SetValue: the default comes back, and a write is discarded. */
  method ExampleNullDictionary()
  {
    var absent: Dict?<string, int> := null;
    assert GetValue(absent, "a", 7) == 7;
    var created := SetValue(absent, "a", 1);
    assert GetValue(created, "a", 0) == 0;
  }

  /** CopyTo overrides the target's shared keys, keeps its other keys and returns the source. */
  method ExampleCopy()
  {
    var source := new Dict<string, int>();
    var _ := SetValue(source, "a", 1);
    var target := new Dict<string, int>();
    var _ := SetValue(target, "a", 10);
    var _ := SetValue(target, "z", 26);
    var returned := CopyTo(source, target);
    assert returned == source;
    assert GetValue(target, "a", 0) == 1 && GetValue(target, "z", 0) == 26;
  }
}
