/** The optional value used wherever the TypeScript code may yield `undefined` or `null`. */
module Wrappers {

  datatype Option<+T> = None | Some(value: T)

  /** `m.get(k)` on a JavaScript `Map`: the value, or nothing when the key is absent. */
  function Lookup<K, V>(m: map<K, V>, k: K): (r: Option<V>)
    ensures r.Some? <==> k in m
    ensures r.Some? ==> r.value == m[k]
  {
    if k in m then Some(m[k]) else None
  }
}
