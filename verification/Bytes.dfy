/** Bytes as unsigned numbers. */
module Bytes {
  type byte = x: int | 0 <= x < 256

  lemma ByteOfBits(n: byte)
    ensures (n as bv8) as nat == n
  {
  }
}
