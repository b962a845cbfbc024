/** Stand-ins for Kotlin's built-in types: nullable values and the range of
    a 32-bit `Int`. */
module Wrappers {

  datatype Option<+T> = None | Some(value: T)

  /** The range of a Kotlin `Int`. */
  const IntMin: int := -0x8000_0000
  const IntMax: int := 0x7fff_ffff
}
