/** Byte strings, digests and 64-bit integers as the Go code has them. */
module ByteStrings {
  newtype byte = b: int | 0 <= b < 256
  type Bytes = seq<byte>

  const HASH_LEN: nat := 32

  function Zeros(n: nat): (z: Bytes)
    ensures |z| == n
  {
    seq(n, i => 0 as byte)
  }

  type Digest = d: Bytes | |d| == HASH_LEN witness Zeros(HASH_LEN)

  type int64 = x: int | -0x8000_0000_0000_0000 <= x < 0x8000_0000_0000_0000

  // Two's-complement wrap-around.
  function Wrap64(x: int): int64 {
    (x + 0x8000_0000_0000_0000) % 0x1_0000_0000_0000_0000 - 0x8000_0000_0000_0000
  }

  // Wrapping early or late makes no difference to a sum.
  lemma WrapAdds(x: int, y: int)
    ensures Wrap64(Wrap64(x) + y) == Wrap64(x + y)
  {
  }

  function Least(x: int, y: int): int {
    if x <= y then x else y
  }
}
