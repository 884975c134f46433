/** The owners of a shared filter entry, and 8-bit counters. */
module Owners {
  /** Virtual functions 1 to 3, and the driver itself. */
  const OWNERS := 4

  predicate IsOwner(vf: nat) {
    1 <= vf <= OWNERS
  }

  function Inc8(n: nat): nat { (n + 1) % 256 }

  function Dec8(n: nat): nat { (n + 255) % 256 }
}
