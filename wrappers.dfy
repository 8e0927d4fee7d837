/** The optional value a lookup produces: `None` stands for JavaScript's
    `undefined` / `null` result. */
module Wrappers {

  datatype Option<+T> = None | Some(value: T)

  /** `m[k]` when `k` is a key of `m`, otherwise `None`. */
  function Get<K, V>(m: map<K, V>, k: K): (r: Option<V>)
    ensures r.Some? <==> k in m
    ensures r.Some? ==> r.value == m[k]
  {
    if k in m then Some(m[k]) else None
  }
}
