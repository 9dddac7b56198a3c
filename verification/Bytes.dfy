/** Bytes as the C++ `char` sees them. */
module Bytes {
  type Byte = x: int | 0 <= x < 256

  /** The value of a byte read as a signed char, the key order of `std::map<char, ...>`. */
  function Signed(b: Byte): (k: int)
    ensures -128 <= k < 128 && Unsigned(k) == b
  {
    if b < 128 then b else b - 256
  }

  function Unsigned(k: int): Byte
    requires -128 <= k < 128
  {
    if k >= 0 then k else k + 256
  }

  /** Both views of a char agree modulo 256. */
  lemma SameModulo256(b: Byte, k: int)
    requires -128 <= k < 128
    ensures Signed(b) % 256 == b && Unsigned(k) == k % 256
  {
  }
}
