/** Option values and map lookup, the vocabulary of Rust's `Option` chains. */
module Wrappers {

  datatype Option<+T> = None | Some(value: T) {

    /** `a.or_else(|| b)`: this value when present, otherwise `other`. */
    function OrElse(other: Option<T>): Option<T> {
      match this
      case Some(_) => this
      case None => other
    }

    /** `unwrap_or` / `unwrap_or_else` / `unwrap_or_default`. */
    function UnwrapOr(default: T): T {
      match this
      case Some(v) => v
      case None => default
    }

    /** `.map(f)` */
    function Map<U>(f: T -> U): Option<U> {
      match this
      case Some(v) => Some(f(v))
      case None => None
    }

    /** `.and_then(f)` */
    function AndThen<U>(f: T -> Option<U>): Option<U> {
      match this
      case Some(v) => f(v)
      case None => None
    }
  }

  /** `HashMap::get` and its relatives: the entry for `k`, if any. */
  function Get<K, V>(m: map<K, V>, k: K): (r: Option<V>)
    ensures r.Some? <==> k in m
    ensures r.Some? ==> r.value == m[k]
  {
    if k in m then Some(m[k]) else None
  }
}
