/** Datatypes shared by every module of the model. */
module Prelude {

  /** A value that may be absent: a NULL column, a nil pointer, a missing hash field. */
  datatype Option<+T> = None | Some(value: T)

  /** The outcome of an operation that may fail. */
  datatype Result<+R, +E> = Ok(value: R) | Err(error: E)

  function Lookup<K, V>(m: map<K, V>, key: K): Option<V> {
    if key in m then Some(m[key]) else None
  }
}
