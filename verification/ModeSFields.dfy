/** The fields of a Mode S message that decide how it is validated, and how a repair
    changes them. */
module ModeSFields {
  import opened Polynomial
  import opened MessageBits
  import opened Checksum

  const LONG_MSG_BYTES: nat := 14
  const SHORT_MSG_BYTES: nat := 7

  type Message = m: seq<bv8> | |m| == LONG_MSG_BYTES
    witness [0, 0, 0, 0, 0, 0, 0, 0, 0, 0, 0, 0, 0, 0]

  // getbits(msg, 1, 5)
  function FormatField(first: bv8): nat {
    (first >> 3) as nat
  }

  function FormatOf(msg: Message): nat {
    FormatField(msg[0])
  }

  // getbits(msg, 9, 32)
  function AddressField(msg: seq<bv8>): bv32
    requires |msg| >= 4
  {
    Plus(Plus(Byte16(msg[1]), Byte8(msg[2])), Byte0(msg[3]))
  }

  function Byte0(b: bv8): bv32 {
    b as bv32
  }

  // modesMessageLenByType
  function LengthOf(format: nat): nat {
    if format >= 16 then LONG_MSG_BITS else SHORT_MSG_BITS
  }

  // The checksum of a message that is taken to be of this format.
  function ChecksumAs(msg: Message, format: nat): bv32 {
    Syndrome(msg[..LengthOf(format) / 8])
  }

  // ------------------------------------------------------------ fields as numbers

  // getbits: the number that the bits from first to last spell, counted from 1.
  function GetBits(msg: seq<bv8>, first: nat, last: nat): nat
    requires 1 <= first <= last + 1 && last <= 8 * |msg|
  {
    if last < first then 0 else 2 * GetBits(msg, first, last - 1) + if BitAt(msg, last - 1) then 1 else 0
  }

  /** The upper five and the lower three bits of a byte, taken by a shift and by a mask, are
      the numbers that its bits spell. */
  lemma ByteFields(msg: seq<bv8>, k: nat)
    requires k < |msg|
    ensures GetBits(msg, 8 * k + 1, 8 * k + 5) == (msg[k] >> 3) as nat
    ensures GetBits(msg, 8 * k + 6, 8 * k + 8) == (msg[k] & 7) as nat
  {
    hide BitAt, TopBit, GetBits;
    UpperBits(msg[k]);
    LowerBits(msg[k]);
    NextBit(msg, k, 0, 0);
    NextBit(msg, k, 0, 1);
    NextBit(msg, k, 0, 2);
    NextBit(msg, k, 0, 3);
    NextBit(msg, k, 0, 4);
    NextBit(msg, k, 5, 5);
    NextBit(msg, k, 5, 6);
    NextBit(msg, k, 5, 7);
  }

  lemma NextBit(msg: seq<bv8>, k: nat, i: nat, j: nat)
    requires k < |msg| && i <= j < 8
    ensures GetBits(msg, 8 * k + i + 1, 8 * k + j + 1) ==
        2 * (if i == j then 0 else GetBits(msg, 8 * k + i + 1, 8 * k + j)) + Digit(msg[k], j)
  {
    hide TopBit;
    assert (8 * k + j) / 8 == k && (8 * k + j) % 8 == j;
  }

  function Digit(b: bv8, j: nat): nat
    requires j < 8
  {
    if TopBit(b, j) then 1 else 0
  }

  lemma UpperBits(b: bv8)
    ensures (b >> 3) as nat == Digit(b, 0) * 16 + Digit(b, 1) * 8 + Digit(b, 2) * 4 + Digit(b, 3) * 2 + Digit(b, 4)
  {
    hide TopBit;
    ShiftedBits(b);
    BinaryDigits(b >> 3);
  }

  lemma ShiftedBits(b: bv8)
    ensures var n := b >> 3;
      n < 32 && TopBit(b, 0) == (n & 16 != 0) && TopBit(b, 1) == (n & 8 != 0) && TopBit(b, 2) == (n & 4 != 0) &&
      TopBit(b, 3) == (n & 2 != 0) && TopBit(b, 4) == (n & 1 != 0)
  {
  }

  lemma LowerBits(b: bv8)
    ensures (b & 7) as nat == Digit(b, 5) * 4 + Digit(b, 6) * 2 + Digit(b, 7)
  {
    var n := b & 7;
    assert TopBit(b, 5) == (n & 4 != 0);
    assert TopBit(b, 6) == (n & 2 != 0);
    assert TopBit(b, 7) == (n & 1 != 0);
  }

  lemma BinaryDigits(n: bv8)
    requires n < 32
    ensures n as nat == (if n & 16 != 0 then 16 else 0) + (if n & 8 != 0 then 8 else 0) +
        (if n & 4 != 0 then 4 else 0) + (if n & 2 != 0 then 2 else 0) + (if n & 1 != 0 then 1 else 0)
  {
  }

  // ---------------------------------------------------- one flipped address bit

  // The weight of message bit i, 8 <= i < 32, in the address field.
  function AddressWeight(i: nat): bv32
    requires 8 <= i < 32
  {
    1 << (31 - i)
  }

  lemma Byte16OfXor(a: bv8, b: bv8)
    ensures Byte16(XorByte(a, b)) == Plus(Byte16(a), Byte16(b))
  {
  }

  lemma Byte8OfXor(a: bv8, b: bv8)
    ensures Byte8(XorByte(a, b)) == Plus(Byte8(a), Byte8(b))
  {
  }

  lemma Byte0OfXor(a: bv8, b: bv8)
    ensures Byte0(XorByte(a, b)) == Plus(Byte0(a), Byte0(b))
  {
  }

  lemma MaskWeight(j: nat)
    requires j < 8
    ensures Byte16(Mask(j)) == AddressWeight(8 + j)
    ensures Byte8(Mask(j)) == AddressWeight(16 + j)
    ensures Byte0(Mask(j)) == AddressWeight(24 + j)
  {
    match j case 0 => case 1 => case 2 => case 3 => case 4 => case 5 => case 6 => case _ =>
  }

  /** Inverting a message bit inverts the matching bit of the address field, if any. */
  lemma FlipBitAddress(msg: seq<bv8>, i: nat)
    requires |msg| >= 4 && i < 8 * |msg|
    ensures AddressField(FlipBit(msg, i)) ==
      if 8 <= i < 32 then Plus(AddressField(msg), AddressWeight(i)) else AddressField(msg)
  {
    hide *;
    AddressParts(msg);
    AddressParts(FlipBit(msg, i));
    FlipBitBytes(msg, i);
    if 8 <= i < 32 {
      var w := AddressWeight(i);
      var b1, b2, b3 := Byte16(msg[1]), Byte8(msg[2]), Byte0(msg[3]);
      MaskWeight(i % 8);
      Byte16OfXor(msg[1], Mask(i % 8));
      Byte8OfXor(msg[2], Mask(i % 8));
      Byte0OfXor(msg[3], Mask(i % 8));
      MoveLast(b1, w, b2, b3);
      PlusAssociative(b1, b2, w);
      MoveLastOne(Plus(b1, b2), w, b3);
      PlusAssociative(Plus(b1, b2), b3, w);
    }
  }

  lemma AddressParts(msg: seq<bv8>)
    requires |msg| >= 4
    ensures AddressField(msg) == Plus(Plus(Byte16(msg[1]), Byte8(msg[2])), Byte0(msg[3]))
  {
  }

  lemma FlipBitBytes(msg: seq<bv8>, i: nat)
    requires i < 8 * |msg|
    ensures |FlipBit(msg, i)| == |msg|
    ensures forall k :: 0 <= k < |msg| ==>
      FlipBit(msg, i)[k] == if k == i / 8 then XorByte(msg[k], Mask(i % 8)) else msg[k]
  {
    hide XorByte, Mask;
  }

  lemma MoveLastOne(a: bv32, w: bv32, c: bv32)
    ensures Plus(Plus(a, w), c) == Plus(Plus(a, c), w)
  {
    hide Plus;
    PlusAssociative(a, w, c);
    PlusCommutative(w, c);
    PlusAssociative(a, c, w);
  }

  lemma MoveLast(a: bv32, w: bv32, b: bv32, c: bv32)
    ensures Plus(Plus(Plus(a, w), b), c) == Plus(Plus(Plus(a, b), c), w)
  {
    hide Plus;
    MoveLastOne(a, w, b);
    MoveLastOne(Plus(a, b), w, c);
  }
}
