/** Octets, and values that may be absent. */
module Octets {

  type byte = x: int | 0 <= x < 256

  datatype Option<T> = None | Some(value: T)
}
