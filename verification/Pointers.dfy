/** Pointers are opaque words; NULL is one of them. */
module Pointers {
  type Pointer = int

  const NULL: Pointer := 0

  /** A key with its value (struct mulle_pointerpair). */
  datatype Pair = Pair(key: Pointer, value: Pointer)
}
