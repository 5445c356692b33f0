/** Option, and the outcome of a Python computation that may raise. */
module Wrappers {

  datatype Option<+T> = None | Some(value: T)

  /** The built-in exceptions the modelled script can raise. */
  datatype Exception = IndexError | TypeError | AttributeError | ValueError

  /** A computation either returns a value or raises an exception. */
  datatype Result<+T> = Ok(value: T) | Raise(error: Exception)

  /** `d.get(k)`: the value under `k`, or None when `k` is missing. */
  function Get<K, V>(m: map<K, V>, k: K): (r: Option<V>)
    ensures r.Some? <==> k in m
    ensures r.Some? ==> r.value == m[k]
  {
    if k in m then Some(m[k]) else None
  }
}
