/**
  32-byte values. Rust compares `[u8; 32]` lexicographically, which is the numeric order of the
  big-endian integer, so a pubkey (or a hash) is modelled by that integer.
 */
module Pubkeys {

  const SPACE: nat := 0x1_0000000000000000_0000000000000000_0000000000000000_0000000000000000

  type Pubkey = p: nat | p < SPACE witness 0

  type Hash = h: nat | h < SPACE witness 0

  const U64_MAX: nat := 0xFFFF_FFFF_FFFF_FFFF

  type U64 = n: nat | n <= U64_MAX witness 0

  /** A bin calculator orders bins as it orders keys; nothing else about it is relied on. */
  ghost predicate Monotone(bin: Pubkey -> nat, bins: nat) {
    && (forall p: Pubkey :: bin(p) < bins)
    && (forall p: Pubkey, q: Pubkey :: p <= q ==> bin(p) <= bin(q))
  }
}
