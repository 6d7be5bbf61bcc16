/** The two result shapes shared by the whole model. */
module Wrappers {
  datatype Option<+T> = None | Some(value: T)

  /** A map lookup that answers "absent" instead of failing. */
  function Get<K, V>(m: map<K, V>, k: K): (v: Option<V>) {
    if k in m then Some(m[k]) else None
  }

  /** A map with one key bound, or unbound when the new value is absent. */
  function Put<K, V>(m: map<K, V>, k: K, v: Option<V>): (m': map<K, V>) {
    if v.Some? then m[k := v.value] else m - {k}
  }

  lemma PutThenGet<K, V>(m: map<K, V>, k: K, v: Option<V>, other: K)
    ensures Get(Put(m, k, v), other) == if other == k then v else Get(m, other)
  {
  }

  lemma PutUnchanged<K, V>(m: map<K, V>, k: K)
    ensures Put(m, k, Get(m, k)) == m
  {
  }
}
