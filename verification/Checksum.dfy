/** The byte-table checksum of crc.c and the parity table of the bridge's own decoder. */
module Checksum {
  import opened Polynomial
  import opened MessageBits

  const LONG_MSG_BITS: nat := 112
  const SHORT_MSG_BITS: nat := 56

  // A byte in the third and in the second place of a register.
  function Byte16(b: bv8): bv32 {
    (b as bv32) << 16
  }

  function Byte8(b: bv8): bv32 {
    (b as bv32) << 8
  }

  // ------------------------------------------------ small values, on bit vectors

  predicate Fits23(r: bv32) {
    r & 0xff800000 == 0
  }
  predicate Fits16(r: bv32) {
    r & 0xffff0000 == 0
  }

  function Double(r: bv32): bv32 {
    r << 1
  }

  function Left(r: bv32, k: nat): bv32
    requires k <= 8
  {
    match k
    case 0 => r
    case 1 => r << 1
    case 2 => r << 2
    case 3 => r << 3
    case 4 => r << 4
    case 5 => r << 5
    case 6 => r << 6
    case 7 => r << 7
    case _ => r << 8
  }

  lemma NoReduction(r: bv32)
    requires Fits23(r)
    ensures TimesX(r) == Double(r)
  {
    assert !Leading(r);
    assert (r << 1) & 0xffffff == r << 1;
  }

  lemma LeftStep(r: bv32, k: nat)
    requires k < 8
    ensures Left(r, k + 1) == Double(Left(r, k))
  {
    hide Double;
    DoubleShifts(r);
  }

  lemma DoubleShifts(r: bv32)
    ensures Double(r) == r << 1 && Double(r << 1) == r << 2 && Double(r << 2) == r << 3
    ensures Double(r << 3) == r << 4 && Double(r << 4) == r << 5 && Double(r << 5) == r << 6
    ensures Double(r << 6) == r << 7 && Double(r << 7) == r << 8
  {
  }

  lemma LeftFits(r: bv32, k: nat)
    requires k < 8 && Fits16(r)
    ensures Fits23(Left(r, k))
  {
  }

  lemma {:induction false} LeftIsPower(r: bv32, k: nat)
    requires k <= 8 && Fits16(r)
    ensures TimesXToThe(k, r) == Left(r, k)
  {
    hide TimesX, Fits23, Fits16, Left, Double;
    if k == 0 {
      LeftZero(r);
    } else {
      LeftIsPower(r, k - 1);
      LeftFits(r, k - 1);
      NoReduction(Left(r, k - 1));
      LeftStep(r, k - 1);
    }
  }

  lemma LeftZero(r: bv32)
    ensures Left(r, 0) == r
  {}

  lemma ByteShift(r: bv32)
    requires Fits16(r)
    ensures TimesXToThe(8, r) == r << 8
  {
    hide TimesX, Fits16;
    LeftIsPower(r, 8);
  }

  lemma ByteFits16(b: bv8)
    ensures Fits16(b as bv32) && Fits16(Byte8(b))
  {
  }

  lemma ByteTo16(b: bv8)
    ensures Byte8(b) << 8 == Byte16(b)
  {
  }

  lemma TwoByteShift(b: bv8)
    ensures TimesXToThe(8, b as bv32) == Byte8(b) && TimesXToThe(16, b as bv32) == Byte16(b)
  {
    hide TimesX, Fits16, Byte16;
    ByteFits16(b);
    ByteShift(b as bv32);
    ByteShift(Byte8(b));
    ByteTo16(b);
    TimesXToTheAdd(8, 8, b as bv32);
  }

  /** A single byte is its own remainder. */
  lemma RemainderOfByte(b: bv8)
    ensures Remainder(ByteBits(b)) == b as bv32
  {
    RemainderOfBytePrefix(b, 8);
    assert ByteBits(b)[..8] == ByteBits(b);
  }

  // The first k bits of b as a number.
  function Prefix(b: bv8, k: nat): bv32
    requires k <= 8
  {
    match k
    case 0 => 0
    case 1 => (b >> 7) as bv32
    case 2 => (b >> 6) as bv32
    case 3 => (b >> 5) as bv32
    case 4 => (b >> 4) as bv32
    case 5 => (b >> 3) as bv32
    case 6 => (b >> 2) as bv32
    case 7 => (b >> 1) as bv32
    case _ => b as bv32
  }

  lemma PrefixFits(b: bv8, k: nat)
    requires k <= 8
    ensures Fits23(Prefix(b, k))
  {
  }

  lemma PrefixStep0(b: bv8)
    ensures Prefix(b, 1) == Plus(Double(Prefix(b, 0)), BitValue(TopBit(b, 0)))
  {
    assert Mask(0) == 0x80;
  }

  lemma PrefixStep1(b: bv8)
    ensures Prefix(b, 2) == Plus(Double(Prefix(b, 1)), BitValue(TopBit(b, 1)))
  {
    assert Mask(1) == 0x40;
  }

  lemma PrefixStep2(b: bv8)
    ensures Prefix(b, 3) == Plus(Double(Prefix(b, 2)), BitValue(TopBit(b, 2)))
  {
    assert Mask(2) == 0x20;
  }

  lemma PrefixStep3(b: bv8)
    ensures Prefix(b, 4) == Plus(Double(Prefix(b, 3)), BitValue(TopBit(b, 3)))
  {
    assert Mask(3) == 0x10;
  }

  lemma PrefixStep4(b: bv8)
    ensures Prefix(b, 5) == Plus(Double(Prefix(b, 4)), BitValue(TopBit(b, 4)))
  {
    assert Mask(4) == 0x8;
  }

  lemma PrefixStep5(b: bv8)
    ensures Prefix(b, 6) == Plus(Double(Prefix(b, 5)), BitValue(TopBit(b, 5)))
  {
    assert Mask(5) == 0x4;
  }

  lemma PrefixStep6(b: bv8)
    ensures Prefix(b, 7) == Plus(Double(Prefix(b, 6)), BitValue(TopBit(b, 6)))
  {
    assert Mask(6) == 0x2;
  }

  lemma PrefixStep7(b: bv8)
    ensures Prefix(b, 8) == Plus(Double(Prefix(b, 7)), BitValue(TopBit(b, 7)))
  {
    assert Mask(7) == 0x1;
  }

  lemma PrefixStep(b: bv8, k: nat)
    requires k < 8
    ensures Prefix(b, k + 1) == Plus(Double(Prefix(b, k)), BitValue(TopBit(b, k)))
  {
    hide *;
    match k
    case 0 => PrefixStep0(b);
    case 1 => PrefixStep1(b);
    case 2 => PrefixStep2(b);
    case 3 => PrefixStep3(b);
    case 4 => PrefixStep4(b);
    case 5 => PrefixStep5(b);
    case 6 => PrefixStep6(b);
    case _ => PrefixStep7(b);
  }

  lemma {:induction false} RemainderOfBytePrefix(b: bv8, k: nat)
    requires k <= 8
    ensures Remainder(ByteBits(b)[..k]) == Prefix(b, k)
  {
    hide TimesX, Plus, BitValue, TopBit, Prefix, Fits23, Double;
    if k == 0 {
      PrefixZero(b);
    } else {
      RemainderOfBytePrefix(b, k - 1);
      assert ByteBits(b)[..k][..k - 1] == ByteBits(b)[..k - 1];
      PrefixFits(b, k - 1);
      NoReduction(Prefix(b, k - 1));
      PrefixStep(b, k - 1);
    }
  }

  lemma PrefixZero(b: bv8)
    ensures Prefix(b, 0) == 0
  {
  }

  // -------------------------------------------------- one byte of a message

  lemma SyndromeAppend(msg: seq<bv8>, b: bv8)
    ensures Syndrome(msg + [b]) == Plus(TimesXToThe(8, Syndrome(msg)), b as bv32)
  {
    hide TimesX, Plus, BitValue, TopBit;
    BitsOfAppend(msg, b);
    RemainderConcat(BitsOf(msg), ByteBits(b));
    RemainderOfByte(b);
  }

  // What the checksum loop reads from its table.
  function TableIndex(rem: bv32, b: bv8): bv8 {
    b ^ (((rem & 0xff0000) >> 16) as bv8)
  }

  function Low24(a: bv32): bv32 {
    a & 0xffffff
  }

  function TableStep(rem: bv32, entry: bv32): bv32 {
    Low24(Plus(rem << 8, entry))
  }

  function TableEntry(v: bv8): bv32 {
    TimesXToThe(8, Byte16(v))
  }

  lemma SplitRemainder(rem: bv32, b: bv8)
    requires IsResidue(rem)
    ensures Plus(rem, Byte16(b)) == Plus(rem & 0xffff, Byte16(TableIndex(rem, b)))
  {
    hide Plus, IsResidue, TableIndex, Byte16;
    SplitHalves(rem);
    IndexTop(rem, b);
    PlusAssociative(rem & 0xffff, rem & 0xff0000, Byte16(b));
  }

  lemma SplitHalves(rem: bv32)
    requires IsResidue(rem)
    ensures rem == Plus(rem & 0xffff, rem & 0xff0000)
  {
  }

  lemma IndexTop(rem: bv32, b: bv8)
    ensures Byte16(TableIndex(rem, b)) == Plus(rem & 0xff0000, Byte16(b))
  {
  }

  lemma LowHalfFits(rem: bv32)
    ensures Fits16(rem & 0xffff)
  {
  }

  lemma TableStepMasks(rem: bv32, entry: bv32)
    requires IsResidue(entry)
    ensures TableStep(rem, entry) == Plus((rem & 0xffff) << 8, entry)
  {
    hide Plus, IsResidue, Low24;
    Low24OfSum(rem << 8, entry);
    Low24OfResidue(entry);
    Low24OfShift(rem);
  }

  lemma Low24OfSum(a: bv32, b: bv32)
    ensures Low24(Plus(a, b)) == Plus(Low24(a), Low24(b))
  {
  }

  lemma Low24OfResidue(r: bv32)
    requires IsResidue(r)
    ensures Low24(r) == r
  {
  }

  lemma Low24OfShift(r: bv32)
    ensures Low24(r << 8) == (r & 0xffff) << 8
  {
  }

  /** One table lookup is eight shifts of the remainder with the byte added on top. */
  lemma TableStepIsEightShifts(rem: bv32, b: bv8)
    requires IsResidue(rem)
    ensures TableStep(rem, TableEntry(TableIndex(rem, b))) == TimesXToThe(8, Plus(rem, Byte16(b)))
  {
    hide TimesX, Plus, IsResidue, Fits16, TableIndex, TableStep, Byte16;
    var low, high := rem & 0xffff, Byte16(TableIndex(rem, b));
    SplitRemainder(rem, b);
    TimesXToTheLinear(8, low, high);
    LowHalfFits(rem);
    ByteShift(low);
    TimesXToTheResidue(8, high);
    TableStepMasks(rem, TableEntry(TableIndex(rem, b)));
  }

  // The register of the checksum loop after the bytes of msg.
  function Register(msg: seq<bv8>): bv32 {
    TimesXToThe(24, Syndrome(msg))
  }

  lemma RegisterOfNothing()
    ensures Register([]) == 0
  {
    assert BitsOf([]) == [];
    TimesXToTheZero(24);
  }

  lemma RegisterStep(msg: seq<bv8>, b: bv8)
    ensures IsResidue(Register(msg))
    ensures Register(msg + [b]) == TableStep(Register(msg), TableEntry(TableIndex(Register(msg), b)))
  {
    hide TimesX, Plus, IsResidue, TableIndex, TableStep, Byte16;
    var s := Syndrome(msg);
    var bb := b as bv32;
    SyndromeAppend(msg, b);
    TimesXToTheLinear(24, TimesXToThe(8, s), bb);
    TimesXToTheAdd(24, 8, s);
    TimesXToTheAdd(8, 24, s);
    TimesXToTheAdd(8, 16, bb);
    TwoByteShift(b);
    TimesXToTheLinear(8, Register(msg), Byte16(b));
    TimesXToTheResidue(24, s);
    TableStepIsEightShifts(Register(msg), b);
  }

  function AddThreeBytes(rem: bv32, b0: bv8, b1: bv8, b2: bv8): bv32 {
    Plus(Plus(Plus(rem, Byte16(b0)), Byte8(b1)), b2 as bv32)
  }

  lemma LastThreeBytes(msg: seq<bv8>, b0: bv8, b1: bv8, b2: bv8)
    ensures Syndrome(msg + [b0, b1, b2]) == AddThreeBytes(Register(msg), b0, b1, b2)
  {
    hide TimesX, Plus, Fits16, Byte8, Byte16;
    var s := Syndrome(msg);
    var v0, v1 := b0 as bv32, b1 as bv32;
    SyndromeAppend(msg, b0);
    SyndromeAppend(msg + [b0], b1);
    SyndromeAppend(msg + [b0] + [b1], b2);
    assert msg + [b0, b1, b2] == msg + [b0] + [b1] + [b2];
    var s0 := TimesXToThe(8, s);
    TimesXToTheLinear(8, s0, v0);
    TimesXToTheLinear(8, TimesXToThe(8, s0), TimesXToThe(8, v0));
    TimesXToTheAdd(8, 8, s);
    TimesXToTheAdd(8, 16, s);
    TimesXToTheAdd(8, 8, v0);
    TwoByteShift(b0);
    TimesXToTheLinear(8, Plus(TimesXToThe(8, s0), TimesXToThe(8, v0)), v1);
    TwoByteShift(b1);
  }

  // ------------------------------------------------------- filling the table

  // One round of the inner loop of initLookupTables, on a full machine word.
  function WordStep(c: bv32): bv32 {
    if c & 0x800000 != 0 then (c << 1) ^ GENERATOR else c << 1
  }

  lemma WordStepShift(c: bv32)
    ensures Leading(Low24(c)) <==> c & 0x800000 != 0
    ensures Low24(c << 1) == ShiftLeft(Low24(c))
  {
  }

  lemma Low24OfGenerator()
    ensures Low24(GENERATOR) == GENERATOR
  {
  }

  lemma WordStepIsTimesX(c: bv32)
    ensures Low24(WordStep(c)) == TimesX(Low24(c))
  {
    hide Low24, Leading, ShiftLeft;
    WordStepShift(c);
    Low24OfSum(c << 1, GENERATOR);
    Low24OfGenerator();
  }

  lemma TableSeed(i: int)
    requires 0 <= i < 256
    ensures Low24((i as bv32) << 16) == Byte16(i as bv8)
  {
    hide Low24;
    SameByte(i);
    Low24OfByte(i as bv8);
  }

  lemma SameByte(i: int)
    requires 0 <= i < 256
    ensures i as bv32 == (i as bv8) as bv32
  {
  }

  lemma Low24OfByte(b: bv8)
    ensures Low24(Byte16(b)) == Byte16(b)
  {
  }

  /** The static tables of crc.c. */
  class LookupTables {
    const crcTable: array<bv32>
    const singleBitSyndrome: array<bv32>

    ghost function Arrays(): set<object> {
      {crcTable, singleBitSyndrome}
    }

    lemma ArraysApart(o: object)
      requires o !in Arrays()
      ensures o != crcTable && o != singleBitSyndrome
    {
    }

    lemma FreshApart(o: object)
      requires o != crcTable && o != singleBitSyndrome
      ensures o !in Arrays()
    {
    }

    ghost predicate CrcTableFilled()
      reads crcTable
    {
      crcTable.Length == 256 &&
      forall k :: 0 <= k < 256 ==> crcTable[k] == TableEntry(k as bv8)
    }

    ghost predicate Valid()
      reads crcTable, singleBitSyndrome
    {
      CrcTableFilled() && singleBitSyndrome.Length == LONG_MSG_BITS &&
      forall i :: 0 <= i < LONG_MSG_BITS ==> singleBitSyndrome[i] == XToThe(LONG_MSG_BITS - 1 - i)
    }

    // The entry of bit i of an n-bit message, which is stored as a bit of a long message.
    lemma SyndromeOfPosition(n: nat, i: nat)
      requires Valid() && i < n <= LONG_MSG_BITS
      ensures singleBitSyndrome.Length == LONG_MSG_BITS
      ensures singleBitSyndrome[i + (LONG_MSG_BITS - n)] == XToThe(n - 1 - i)
    {
    }

    /** initLookupTables */
    constructor ()
      ensures Valid() && fresh(crcTable) && fresh(singleBitSyndrome)
    {
      crcTable := new bv32[256];
      singleBitSyndrome := new bv32[LONG_MSG_BITS];
      new;
      for i := 0 to 256
        invariant forall k :: 0 <= k < i ==> crcTable[k] == TableEntry(k as bv8)
      {
        var c := ByteRemainder(i);
        crcTable[i] := c;
      }
      FillSyndromes();
    }

    static method ByteRemainder(i: nat) returns (r: bv32)
      requires i < 256
      ensures r == TableEntry(i as bv8)
    {
      hide TimesX, Low24, WordStep;
      var c := (i as bv32) << 16;
      TableSeed(i);
      for j := 0 to 8
        invariant Low24(c) == TimesXToThe(j, Byte16(i as bv8))
      {
        WordStepIsTimesX(c);
        c := WordStep(c);
      }
      r := Low24(c);
    }

    method FillSyndromes()
      requires CrcTableFilled() && singleBitSyndrome.Length == LONG_MSG_BITS && crcTable != singleBitSyndrome
      modifies singleBitSyndrome
      ensures Valid()
    {
      var msg := new bv8[LONG_MSG_BITS / 8](_ => 0);
      for i := 0 to LONG_MSG_BITS
        invariant CrcTableFilled()
        invariant fresh(msg) && msg[..] == seq(LONG_MSG_BITS / 8, _ => 0)
        invariant forall k :: 0 <= k < i ==> singleBitSyndrome[k] == XToThe(LONG_MSG_BITS - 1 - k)
      {
        hide TimesX, Plus, BitValue, TopBit, Mask;
        var s := SyndromeOfBit(msg, i);
        singleBitSyndrome[i] := s;
      }
    }

    // Sets one bit of a zero message, takes the checksum and clears the bit again.
    method SyndromeOfBit(msg: array<bv8>, i: nat) returns (s: bv32)
      requires CrcTableFilled() && msg != crcTable as object
      requires msg[..] == seq(LONG_MSG_BITS / 8, _ => 0) && i < LONG_MSG_BITS
      modifies msg
      ensures s == XToThe(LONG_MSG_BITS - 1 - i)
      ensures msg[..] == old(msg[..])
    {
      hide TimesX, Plus, BitValue, TopBit, Mask, XorByte;
      ghost var zero := msg[..];
      msg[i / 8] := XorByte(msg[i / 8], Mask(i % 8));
      ZeroByteXor(Mask(i % 8));
      assert msg[..] == zero[i / 8 := Mask(i % 8)];
      s := ModesChecksum(msg, LONG_MSG_BITS);
      assert msg[..LONG_MSG_BITS / 8] == msg[..];
      SetOneBit(LONG_MSG_BITS / 8, i);
      RemainderOneBit(LONG_MSG_BITS, i);
      msg[i / 8] := XorByte(msg[i / 8], Mask(i % 8));
      assert msg[..] == zero;
    }

    method ModesChecksum(message: array<bv8>, bits: nat) returns (rem: bv32)
      requires CrcTableFilled()
      requires bits % 8 == 0 && 24 <= bits <= 8 * message.Length
      ensures rem == Syndrome(message[..bits / 8])
    {
      hide *;
      rem := 0;
      var n := bits / 8;
      RegisterOfNothing();
      for i := 0 to n - 3
        invariant rem == Register(message[..i])
      {
        RegisterStep(message[..i], message[i]);
        assert message[..i + 1] == message[..i] + [message[i]];
        rem := StepByte(rem, message[i]);
      }
      LastThreeBytes(message[..n - 3], message[n - 3], message[n - 2], message[n - 1]);
      assert message[..n - 3] + [message[n - 3], message[n - 2], message[n - 1]] == message[..n];
      rem := AddThreeBytes(rem, message[n - 3], message[n - 2], message[n - 1]);
    }

    method StepByte(rem0: bv32, b: bv8) returns (rem: bv32)
      requires CrcTableFilled()
      ensures rem == TableStep(rem0, TableEntry(TableIndex(rem0, b)))
    {
      rem := (rem0 << 8) ^ crcTable[(b ^ (((rem0 & 0xff0000) >> 16) as bv8)) as int];
      rem := rem & 0xffffff;
    }
  }
}
