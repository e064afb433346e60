/** Values shared by the components' models. */
module Basics {
  datatype Option<T> = None | Some(value: T)

  function Lookup<K(==), T>(m: map<K, T>, key: K): Option<T> {
    if key in m then Some(m[key]) else None
  }

  /** n copies of x. */
  function Repeat<T>(x: T, n: nat): (s: seq<T>)
    ensures |s| == n
  {
    seq(n, _ => x)
  }
}
