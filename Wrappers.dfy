/** Option and Result values for the error paths of the modelled code
    (a Python `KeyError`/`ValueError` becomes a `Failure`). */
module Wrappers {

  datatype Option<+T> = None | Some(value: T)

  datatype Result<+R, +E> = Success(value: R) | Failure(error: E)

  /** `d.get(key, default)` on a Python dictionary. */
  function Lookup<K, V>(m: map<K, V>, key: K, default: V): (r: V)
    ensures key in m ==> r == m[key]
    ensures key !in m ==> r == default
  {
    if key in m then m[key] else default
  }
}
