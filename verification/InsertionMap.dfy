/**
 * A JavaScript `Map`: one value a key, in insertion order. Setting a key that
 * is present keeps its place; deleting and setting it again moves it to the end.
 */
module InsertionMap {
  import opened Wrappers

  datatype Entry<+K, +V> = Entry(key: K, value: V)

  function Find<K(==), V>(m: seq<Entry<K, V>>, k: K): Option<V> {
    if m == [] then None
    else if m[0].key == k then Some(m[0].value)
    else Find(m[1..], k)
  }

  function Put<K(==), V>(m: seq<Entry<K, V>>, k: K, v: V): seq<Entry<K, V>> {
    if m == [] then [Entry(k, v)]
    else if m[0].key == k then [Entry(k, v)] + m[1..]
    else [m[0]] + Put(m[1..], k, v)
  }

  function Without<K(==), V>(m: seq<Entry<K, V>>, k: K): seq<Entry<K, V>> {
    if m == [] then []
    else if m[0].key == k then Without(m[1..], k)
    else [m[0]] + Without(m[1..], k)
  }

  predicate Distinct<K(==), V>(m: seq<Entry<K, V>>) {
    m == [] || (Find(m[1..], m[0].key).None? && Distinct(m[1..]))
  }

  lemma {:induction false} PutFinds<K, V>(m: seq<Entry<K, V>>, k: K, v: V, j: K)
    ensures Find(Put(m, k, v), j) == if j == k then Some(v) else Find(m, j)
    ensures |Put(m, k, v)| == if Find(m, k).Some? then |m| else |m| + 1
    ensures Find(m, k).None? ==> Put(m, k, v) == m + [Entry(k, v)]
  {
    if m != [] && m[0].key != k {
      PutFinds(m[1..], k, v, j);
    }
  }

  lemma {:induction false} PutDistinct<K, V>(m: seq<Entry<K, V>>, k: K, v: V)
    requires Distinct(m)
    ensures Distinct(Put(m, k, v))
  {
    if m != [] && m[0].key != k {
      PutDistinct(m[1..], k, v);
      PutFinds(m[1..], k, v, m[0].key);
    }
  }

  lemma {:induction false} WithoutFinds<K, V>(m: seq<Entry<K, V>>, k: K, j: K)
    ensures Find(Without(m, k), j) == if j == k then None else Find(m, j)
    ensures |Without(m, k)| <= |m|
    ensures Find(m, k).None? ==> Without(m, k) == m
  {
    if m != [] {
      WithoutFinds(m[1..], k, j);
    }
  }

  lemma {:induction false} WithoutDistinct<K, V>(m: seq<Entry<K, V>>, k: K)
    requires Distinct(m)
    ensures Distinct(Without(m, k))
  {
    if m != [] {
      WithoutDistinct(m[1..], k);
      WithoutFinds(m[1..], k, m[0].key);
    }
  }
}
