/** Small shared helpers: the optional value the Rust code writes as `Option<T>`, and `min` on naturals. */
module Wrappers {
  datatype Option<+T> = None | Some(value: T)

  /** `Ord::min` on naturals. */
  function Min(a: nat, b: nat): nat { if a < b then a else b }
}
