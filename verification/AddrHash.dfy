/** addrHash, on which the address filter and the aircraft tables rely: some mixing of an
    address, masked to a number of bits. */
module AddrHash {

  function Pow2(n: nat): (p: nat)
    ensures p > 0
  {
    if n == 0 then 1 else 2 * Pow2(n - 1)
  }

  function Masked(mixed: nat, bits: nat): (h: nat)
    ensures h < Pow2(bits)
  {
    mixed % Pow2(bits)
  }
}
