/** What the two int64 hash tables share: the empty mark, the hash and the home slot. */
module IntKeys {
  import opened Bytes
  import opened Probing

  const EMPTY: int64 := -0x8000_0000_0000_0000

  /** The hash function, left arbitrary. */
  type Mix = int64 -> int64

  function Home(mix: Mix, k: int64, lg: nat): int {
    BitAnd(mix(k), Pow2(lg) - 1)
  }

  ghost function Homes(mix: Mix, lg: nat): int64 -> int {
    (k: int64) => Home(mix, k, lg)
  }
}
