/** The parity check of native_modes_decoder.cpp, which uses its own table of
    monomials instead of crc.c. */
module BridgeParity {
  import opened Polynomial
  import opened MessageBits
  import opened Checksum

  const MESSAGE_BYTES := 14

  type Row = r: seq<bv32> | |r| == 8 witness [0, 0, 0, 0, 0, 0, 0, 0]

  // MODES_CHECKSUM_TABLE, row by row.
  function TableRow(k: nat): Row
    requires k < 11
  {
    match k
    case 0 => [0x3935ea, 0x1c9af5, 0xf1b77e, 0x78dbbf, 0xc397db, 0x9e31e9, 0xb0e2f0, 0x587178]
    case 1 => [0x2c38bc, 0x161c5e, 0x0b0e2f, 0xfa7d13, 0x82c48d, 0xbe9842, 0x5f4c21, 0xd05c14]
    case 2 => [0x682e0a, 0x341705, 0xe5f186, 0x72f8c3, 0xc68665, 0x9cb936, 0x4e5c9b, 0xd8d449]
    case 3 => [0x939020, 0x49c810, 0x24e408, 0x127204, 0x093902, 0x049c81, 0xfdb444, 0x7eda22]
    case 4 => [0x3f6d11, 0xe04c8c, 0x702646, 0x381323, 0xe3f395, 0x8e03ce, 0x4701e7, 0xdc7af7]
    case 5 => [0x91c77f, 0xb719bb, 0xa476d9, 0xadc168, 0x56e0b4, 0x2b705a, 0x15b82d, 0xf52612]
    case 6 => [0x7a9309, 0xc2b380, 0x6159c0, 0x30ace0, 0x185670, 0x0c2b38, 0x06159c, 0x030ace]
    case 7 => [0x018567, 0xff38b7, 0x80665f, 0xbfc92b, 0xa01e91, 0xaff54c, 0x57faa6, 0x2bfd53]
    case 8 => [0xea04ad, 0x8af852, 0x457c29, 0xdd4410, 0x6ea208, 0x375104, 0x1ba882, 0x0dd441]
    case 9 => [0xf91024, 0x7c8812, 0x3e4409, 0xe0d800, 0x706c00, 0x383600, 0x1c1b00, 0x0e0d80]
    case _ => [0x0706c0, 0x038360, 0x01c1b0, 0x00e0d8, 0x00706c, 0x003836, 0x001c1b, 0xfff409]
  }

  function TableEntryAt(bit: nat): bv32
    requires bit < 88
  {
    TableRow(bit / 8)[bit % 8]
  }

  // Every entry of the row is x times the entry after it.
  predicate Descending(row: Row, next: bv32) {
    row[0] == TimesX(row[1]) && row[1] == TimesX(row[2]) && row[2] == TimesX(row[3]) &&
    row[3] == TimesX(row[4]) && row[4] == TimesX(row[5]) && row[5] == TimesX(row[6]) &&
    row[6] == TimesX(row[7]) && row[7] == TimesX(next)
  }

  lemma RowsDescend(k: nat)
    requires k < 10
    ensures Descending(TableRow(k), TableRow(k + 1)[0])
  {
    if k < 5 {
      FirstRowsDescend(k);
    } else {
      LastRowsDescend(k);
    }
  }

  lemma FirstRowsDescend(k: nat)
    requires k < 5
    ensures Descending(TableRow(k), TableRow(k + 1)[0])
  {
    match k case 0 => case 1 => case 2 => case 3 => case _ =>
  }

  lemma LastRowsDescend(k: nat)
    requires 5 <= k < 10
    ensures Descending(TableRow(k), TableRow(k + 1)[0])
  {
    match k case 5 => case 6 => case 7 => case 8 => case _ =>
  }

  lemma LastRowDescends()
    ensures var row := TableRow(10);
      row[0] == TimesX(row[1]) && row[1] == TimesX(row[2]) && row[2] == TimesX(row[3]) &&
      row[3] == TimesX(row[4]) && row[4] == TimesX(row[5]) && row[5] == TimesX(row[6]) &&
      row[6] == TimesX(row[7]) && row[7] == TimesX(0x800000)
  {
  }

  lemma EntryDoublesNext(bit: nat)
    requires bit < 87
    ensures TableEntryAt(bit) == TimesX(TableEntryAt(bit + 1))
  {
    hide TimesX, TableRow;
    var k, j := bit / 8, bit % 8;
    if j < 7 {
      assert (bit + 1) / 8 == k && (bit + 1) % 8 == j + 1;
    } else {
      assert (bit + 1) / 8 == k + 1 && (bit + 1) % 8 == 0;
    }
    if k < 10 {
      RowsDescend(k);
    } else {
      LastRowDescends();
    }
  }

  lemma TopPower()
    ensures XToThe(23) == 0x800000
  {
    hide TimesX;
    LeftIsPower(1, 7);
    LeftIsPower(0x80, 8);
    LeftIsPower(0x8000, 8);
    TimesXToTheAdd(8, 7, 1);
    TimesXToTheAdd(8, 15, 1);
  }

  /** Entry i of the bridge's table is the syndrome of bit i of a 112-bit message. */
  lemma {:induction false} EntryIsMonomial(bit: nat)
    requires bit < 88
    ensures TableEntryAt(bit) == XToThe(LONG_MSG_BITS - 1 - bit)
    decreases 88 - bit
  {
    hide TimesX, TableRow;
    if bit == 87 {
      LastRowDescends();
      TopPower();
    } else {
      EntryIsMonomial(bit + 1);
      EntryDoublesNext(bit);
    }
  }

  // -------------------------------------------------- monomials never repeat

  lemma NoEntryIsOne(k: nat)
    requires k < 11
    ensures forall j :: 0 <= j < 8 ==> TableRow(k)[j] != 1
  {
    match k
    case 0 => case 1 => case 2 => case 3 => case 4 => case 5 =>
    case 6 => case 7 => case 8 => case 9 => case _ =>
  }

  lemma {:induction false} LowPowers(k: nat)
    requires 1 <= k < 24
    ensures XToThe(k) != 1
  {
    hide TimesX, Left;
    if k <= 8 {
      LeftIsPower(1, k);
      LeftIsEven(1, k);
    } else if k <= 15 {
      LeftIsPower(1, 7);
      LeftOfOne();
      LeftIsPower(0x80, k - 7);
      LeftIsEven(0x80, k - 7);
      TimesXToTheAdd(k - 7, 7, 1);
    } else {
      LeftIsPower(1, 7);
      LeftOfOne();
      LeftIsPower(0x80, 8);
      LeftIsPower(0x8000, k - 15);
      LeftIsEven(0x8000, k - 15);
      TimesXToTheAdd(8, 7, 1);
      TimesXToTheAdd(k - 15, 15, 1);
    }
  }

  lemma LeftOfOne()
    ensures Left(1, 7) == 0x80 && Left(0x80, 8) == 0x8000
  {
  }

  lemma LeftIsEven(r: bv32, k: nat)
    requires 1 <= k <= 8
    ensures Left(r, k) != 1
  {
    match k
    case 1 => assert (r << 1) & 1 == 0;
    case 2 => assert (r << 2) & 1 == 0;
    case 3 => assert (r << 3) & 1 == 0;
    case 4 => assert (r << 4) & 1 == 0;
    case 5 => assert (r << 5) & 1 == 0;
    case 6 => assert (r << 6) & 1 == 0;
    case 7 => assert (r << 7) & 1 == 0;
    case _ => assert (r << 8) & 1 == 0;
  }

  /** The powers of x below 112 are all different: two single-bit errors of one
      message never have the same syndrome. */
  lemma {:induction false} MonomialsDistinct(j: nat, k: nat)
    requires j < k < LONG_MSG_BITS
    ensures XToThe(j) != XToThe(k)
  {
    hide TimesX, TableRow, IsResidue;
    if j == 0 {
      if k < 24 {
        LowPowers(k);
      } else {
        EntryIsMonomial(LONG_MSG_BITS - 1 - k);
        NoEntryIsOne((LONG_MSG_BITS - 1 - k) / 8);
      }
    } else {
      MonomialsDistinct(j - 1, k - 1);
      OneIsResidue();
      TimesXToTheResidue(j - 1, 1);
      TimesXToTheResidue(k - 1, 1);
      if XToThe(j) == XToThe(k) {
        TimesXInjective(XToThe(j - 1), XToThe(k - 1));
      }
    }
  }

  lemma OneIsResidue()
    ensures IsResidue(1)
  {
  }

  // ------------------------------------------------------------ the check itself

  // What the loop has accumulated after the first n bits: those bits, followed by zeros.
  function Accumulated(message: seq<bv8>, n: nat): bv32
    requires n <= 8 * |message| && n <= LONG_MSG_BITS
  {
    TimesXToThe(LONG_MSG_BITS - n, Remainder(BitsOf(message)[..n]))
  }

  lemma AccumulatedStep(message: seq<bv8>, n: nat)
    requires n < 88 && |message| == MESSAGE_BYTES
    ensures Accumulated(message, n + 1) ==
      if BitAt(message, n) then Plus(Accumulated(message, n), TableEntryAt(n)) else Accumulated(message, n)
  {
    hide TimesX, Plus, BitValue, TopBit, TableRow;
    var prefix := BitsOf(message)[..n];
    assert BitsOf(message)[..n + 1][..n] == prefix;
    var r := Remainder(prefix);
    var bit := BitValue(BitAt(message, n));
    var rest := LONG_MSG_BITS - 1 - n;
    TimesXToTheLinear(rest, TimesX(r), bit);
    TimesXToTheAdd(rest, 1, r);
    EntryIsMonomial(n);
    BitValueOfTrue();
    BitValueOfFalse();
    TimesXToTheZero(rest);
    PlusZero(Accumulated(message, n));
  }

  lemma ShiftedBit(b: bv8, k: nat)
    requires k < 8
    ensures (b >> (7 - k)) & 1 != 0 <==> TopBit(b, k)
  {
    hide Mask;
    MaskValue(k);
    match k
    case 0 => assert (b >> 7) & 1 != 0 <==> b & 0x80 != 0;
    case 1 => assert (b >> 6) & 1 != 0 <==> b & 0x40 != 0;
    case 2 => assert (b >> 5) & 1 != 0 <==> b & 0x20 != 0;
    case 3 => assert (b >> 4) & 1 != 0 <==> b & 0x10 != 0;
    case 4 => assert (b >> 3) & 1 != 0 <==> b & 0x08 != 0;
    case 5 => assert (b >> 2) & 1 != 0 <==> b & 0x04 != 0;
    case 6 => assert (b >> 1) & 1 != 0 <==> b & 0x02 != 0;
    case _ =>
  }

  function ParityField(b0: bv8, b1: bv8, b2: bv8): bv32 {
    Or(Or(Byte16(b0), Byte8(b1)), b2 as bv32)
  }

  function Or(a: bv32, b: bv32): (r: bv32)
    ensures a & b == 0 ==> r == Plus(a, b)
  {
    a | b
  }

  lemma ParityBytesDisjoint(b0: bv8, b1: bv8, b2: bv8)
    ensures Byte16(b0) & Byte8(b1) == 0
    ensures Or(Byte16(b0), Byte8(b1)) & (b2 as bv32) == 0
  {
  }

  lemma OrIsSum(b0: bv8, b1: bv8, b2: bv8)
    ensures ParityField(b0, b1, b2) == Plus(Plus(Byte16(b0), Byte8(b1)), b2 as bv32)
  {
    hide Plus, Byte16, Byte8, Or;
    ParityBytesDisjoint(b0, b1, b2);
  }

  lemma SumIsZero(a: bv32, b: bv32)
    ensures Plus(a, b) == 0 <==> a == b
  {
    hide Plus;
    PlusZero(b);
    if Plus(a, b) == 0 {
      PlusCancel(a, b, b);
    }
  }

  /** The bridge accepts a 112-bit message exactly when crc.c finds no error in it. */
  lemma ParityMatches(message: seq<bv8>)
    requires |message| == MESSAGE_BYTES
    ensures Syndrome(message) == 0 <==>
      Accumulated(message, 88) == ParityField(message[11], message[12], message[13])
  {
    hide TimesX, Plus, BitValue, TopBit, Byte8, Byte16, ParityField;
    var data := message[..11];
    assert message == data + [message[11], message[12], message[13]];
    assert BitsOf(message)[..88] == BitsOf(data);
    LastThreeBytes(data, message[11], message[12], message[13]);
    var r, p0, p1, p2 := Register(data), Byte16(message[11]), Byte8(message[12]), message[13] as bv32;
    OrIsSum(message[11], message[12], message[13]);
    PlusAssociative(r, p0, p1);
    PlusAssociative(r, Plus(p0, p1), p2);
    SumIsZero(r, Plus(Plus(p0, p1), p2));
  }

  method ValidChecksum(message: seq<bv8>) returns (valid: bool)
    requires |message| == MESSAGE_BYTES
    ensures valid <==> Syndrome(message) == 0
  {
    hide TimesX, Plus, BitValue, TopBit, TableRow, ParityField, Remainder;
    var checksum: bv32 := 0;
    AccumulatedNothing(message);
    for bit := 0 to 88
      invariant checksum == Accumulated(message, bit)
    {
      AccumulatedStep(message, bit);
      ShiftedBit(message[bit / 8], bit % 8);
      var value := (message[bit / 8] >> (7 - bit % 8)) & 1;
      if value != 0 {
        checksum := Plus(checksum, TableEntryAt(bit));
      }
    }
    var parity := ParityField(message[11], message[12], message[13]);
    ParityMatches(message);
    valid := checksum == parity;
  }

  lemma AccumulatedNothing(message: seq<bv8>)
    requires |message| == MESSAGE_BYTES
    ensures Accumulated(message, 0) == 0
  {
    assert BitsOf(message)[..0] == [];
    TimesXToTheZero(LONG_MSG_BITS);
  }
}
