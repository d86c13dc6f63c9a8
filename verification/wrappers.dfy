/** Option type shared by the decoder and the settings validation. */
/** Octets, shared by the settings' text fields and the base-64 encoder. */
module Bytes {

  /** An octet, as held in a Go `[]byte` or `string`. */
  type byte = x: int | 0 <= x < 256
}

module Wrappers {

  /** Some value, or nothing (Go's `nil` error, or a failed decode). */
  datatype Option<+T> = None | Some(value: T)
}
