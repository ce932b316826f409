/** The optional values shared by all modules. */
module Wrappers {

  datatype Option<+T> = None | Some(value: T)

  /** The entry of a map at a key, if there is one. */
  function Get<K, V>(m: map<K, V>, k: K): Option<V> {
    if k in m then Some(m[k]) else None
  }
}
