/** Option, Result and a map lookup, shared by the other modules. */
module Wrappers {

  /** A value that may be absent; `None` stands for Java's `null`. */
  datatype Option<+T> = None | Some(value: T)

  /** The outcome of a computation that may throw; `Failure` carries the exception. */
  datatype Result<+T, +E> = Success(value: T) | Failure(error: E)

  /** Map lookup as an Option, so that presence and value are compared at once. */
  function Lookup<K, V>(m: map<K, V>, k: K): (r: Option<V>)
    ensures r.Some? <==> k in m
    ensures r.Some? ==> m[k] == r.value
  {
    if k in m then Some(m[k]) else None
  }

  /** Two maps are equal exactly when every key looks up the same in both. */
  lemma LookupExtensionality<K, V>(a: map<K, V>, b: map<K, V>)
    requires forall k :: Lookup(a, k) == Lookup(b, k)
    ensures a == b
  {
    assert a.Keys == b.Keys by {
      forall k | k in a ensures k in b {
        assert Lookup(a, k).Some?;
      }
      forall k | k in b ensures k in a {
        assert Lookup(b, k).Some?;
      }
    }
    forall k | k in a ensures a[k] == b[k] {
      assert Lookup(a, k) == Lookup(b, k);
    }
  }
}
