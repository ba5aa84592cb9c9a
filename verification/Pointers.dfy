/** Pointers to caller's data, which the containers only compare with NULL. */
module Pointers {
  type Pointer = nat
  const NULL: Pointer := 0
}
