/** Small helper datatypes shared by the widget model. */
module Wrappers {

  /** A possibly absent value: `None` plays the role of a null pointer. */
  datatype Option<+T> = None | Some(value: T)

  /** Looks a key up in a map, giving `None` when it is absent. */
  function Lookup<K, V>(m: map<K, V>, k: K): (r: Option<V>)
    ensures r.Some? <==> k in m
    ensures r.Some? ==> r.value == m[k]
  {
    if k in m then Some(m[k]) else None
  }
}
