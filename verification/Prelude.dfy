/** Small datatypes shared by every component. */
module Prelude {

  datatype Option<+T> = None | Some(value: T)

  /** The value stored under a key, as an Option. */
  function Get<K, V>(m: map<K, V>, k: K): Option<V> {
    if k in m then Some(m[k]) else None
  }

  lemma MapMinusMinus<K, V>(m: map<K, V>, a: set<K>, b: set<K>)
    ensures m - a - b == m - (a + b)
  {
  }

  lemma SameMap<K(!new), V>(a: map<K, V>, b: map<K, V>)
    requires forall k :: Get(a, k) == Get(b, k)
    ensures a == b
  {
    assert forall k :: k in a ==> Get(a, k) == Get(b, k) && k in b && a[k] == b[k];
    assert forall k :: k in b ==> Get(a, k) == Get(b, k) && k in a;
  }

  lemma Pick<T>(s: set<T>) returns (x: T)
    requires s != {}
    ensures x in s
  {
    x :| x in s;
  }
}
