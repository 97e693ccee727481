/** Maps from keys to sets, as the indices of the daemon's tables use them. */
module Buckets {

  function Bucket<K, V>(index: map<K, set<V>>, key: K): set<V> {
    if key in index then index[key] else {}
  }

  function Enlisted<K, V>(index: map<K, set<V>>, key: K, value: V): map<K, set<V>> {
    index[key := Bucket(index, key) + {value}]
  }

  /** Takes a value out; an emptied bucket stays. */
  function Struck<K, V>(index: map<K, set<V>>, key: K, value: V): map<K, set<V>> {
    if key in index then index[key := index[key] - {value}] else index
  }

  /** Takes a value out, and the bucket with it once it is empty. */
  function Cut<K, V>(index: map<K, set<V>>, key: K, value: V): map<K, set<V>> {
    if key !in index then index
    else if index[key] - {value} == {} then index - {key}
    else index[key := index[key] - {value}]
  }

  predicate NoEmpty<K, V>(index: map<K, set<V>>) {
    forall k :: k in index ==> index[k] != {}
  }

  lemma EnlistedIn<K, V>(index: map<K, set<V>>, key: K, value: V)
    ensures forall k, v ::
      v in Bucket(Enlisted(index, key, value), k) <==> v in Bucket(index, k) || (k == key && v == value)
    ensures NoEmpty(index) ==> NoEmpty(Enlisted(index, key, value))
  {
  }

  lemma CutIn<K, V>(index: map<K, set<V>>, key: K, value: V)
    ensures forall k, v ::
      v in Bucket(Cut(index, key, value), k) <==> v in Bucket(index, k) && !(k == key && v == value)
    ensures NoEmpty(index) ==> NoEmpty(Cut(index, key, value))
  {
  }

  /** Without empty buckets, a map is determined by its buckets. */
  lemma SameBuckets<K, V>(a: map<K, set<V>>, b: map<K, set<V>>)
    requires NoEmpty(a) && NoEmpty(b)
    requires forall k, v :: v in Bucket(a, k) <==> v in Bucket(b, k)
    ensures a == b
  {
    forall k ensures Bucket(a, k) == Bucket(b, k) {
      assert forall v :: v in Bucket(a, k) <==> v in Bucket(b, k);
    }
    forall k ensures k in a <==> k in b {
      assert Bucket(a, k) == Bucket(b, k);
    }
    forall k | k in a ensures a[k] == b[k] {
      assert Bucket(a, k) == Bucket(b, k);
    }
  }
}
