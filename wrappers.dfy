/** Absence and failure as values, in place of Java's null, Optional and exceptions. */
module Wrappers {

  /** Java's Optional<T>, and a reference that may be null. */
  datatype Option<+T> = None | Some(value: T)

  /** The outcome of a service call that returns a value or throws. */
  datatype Result<+R, +E> = Success(value: R) | Failure(error: E)

  /** The outcome of a void service call that may throw. */
  datatype Outcome<+E> = Pass | Fail(error: E)

  /** Map.get: the value under a key, or null when the key is absent. */
  function Get<K, V>(m: map<K, V>, k: K): (r: Option<V>)
    ensures r.Some? <==> k in m
    ensures r.Some? ==> r.value == m[k]
  {
    if k in m then Some(m[k]) else None
  }
}
