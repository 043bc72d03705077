/** The bucket-index function of the table: fold the high half of the key's
    32-bit hash code into its low half, then mask to the capacity. */
module Hashing {
  import opened Java

  /** Number of buckets, `1 << 16`; fixed at construction, never resized. */
  const DEFAULT_CAPACITY: nat := 0x1_0000

  /** `DEFAULT_CAPACITY - 1` as a 32-bit mask; valid because the capacity is a
      power of two. */
  const INDEX_MASK: bv32 := 0xFFFF

  /** Java's `(h ^ (h >>> 16)) & (DEFAULT_CAPACITY - 1)` on a 32-bit `int`
      hash code `h`; `>>>` is the logical shift, which is `>>` on `bv32`. */
  function Spread(h: bv32): (index: nat)
    ensures index < DEFAULT_CAPACITY
  {
    (((h ^ (h >> 16)) & INDEX_MASK) as bv16) as nat
  }

  /** The bucket of a key: 0 for `null`, otherwise the spread of the key's
      hash code. `hashCode` stands for the key type's own `hashCode()`, about
      which nothing is assumed beyond being a deterministic function. */
  function Hash<K>(hashCode: K -> bv32, key: Ref<K>): (index: nat)
    ensures index < DEFAULT_CAPACITY
    ensures key.Null? ==> index == 0
  {
    match key
    case Null => 0
    case Obj(k) => Spread(hashCode(k))
  }

  /** Bits 0-15 of a hash code. */
  function LowHalf(h: bv32): bv16
  {
    (h & 0xFFFF) as bv16
  }

  /** Bits 16-31 of a hash code. */
  function HighHalf(h: bv32): bv16
  {
    (h >> 16) as bv16
  }

  /** The bucket of a non-null key is the exclusive-or of the two 16-bit
      halves of its hash code. */
  lemma SpreadFoldsHalves(h: bv32)
    ensures Spread(h) == (LowHalf(h) ^ HighHalf(h)) as nat
  {
  }
}
