/**
 Append-only memo tables: the sequential reading of
 `ConcurrentDictionary.GetOrAdd(key, valueFactory)`.
 */
module Memo {

  /** Every entry of `cache` holds the value `f` computes for its key. */
  ghost predicate Agrees<K, V>(cache: map<K, V>, f: K -> V) {
    forall k :: k in cache ==> cache[k] == f(k)
  }

  /** `after` keeps every key of `before` with its value unchanged. */
  ghost predicate Grows<K, V>(before: map<K, V>, after: map<K, V>) {
    forall k :: k in before ==> k in after && after[k] == before[k]
  }

  /** Returns the entry for `key`, computing and storing `compute(key)` only when
      there is none, together with the updated table. */
  function GetOrAdd<K, V>(cache: map<K, V>, key: K, compute: K -> V): (r: (V, map<K, V>))
    ensures key in r.1 && r.1[key] == r.0
    ensures r.1.Keys == cache.Keys + {key}
    ensures Grows(cache, r.1)
    ensures key in cache ==> r.1 == cache
    ensures key !in cache ==> r.0 == compute(key) && r.1 == cache[key := compute(key)]
    ensures Agrees(cache, compute) ==> Agrees(r.1, compute) && r.0 == compute(key)
  {
    if key in cache then (cache[key], cache)
    else
      var v := compute(key);
      (v, cache[key := v])
  }

  /** A second lookup of the same key returns the first answer and changes
      nothing, whatever factory it is given. */
  lemma GetOrAddStable<K, V>(cache: map<K, V>, key: K, compute: K -> V, other: K -> V)
    ensures GetOrAdd(GetOrAdd(cache, key, compute).1, key, other) == GetOrAdd(cache, key, compute)
  {
  }

  lemma GrowsTransitive<K, V>(a: map<K, V>, b: map<K, V>, c: map<K, V>)
    requires Grows(a, b) && Grows(b, c)
    ensures Grows(a, c)
  {
  }
}
