/** Bytes as numbers. */
module ByteValues {

  lemma ByteOf(d: nat)
    requires d < 256
    ensures (d as bv8) as nat == d
  {
  }
}
