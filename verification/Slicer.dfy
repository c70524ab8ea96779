/** The slicer of demod_2400.c: at 2.4 MHz a bit is 12 fifths of a sample long, so a message
    is cut out with five correlators, one for each fifth a bit can begin at. */
module Slicer {
  import opened MessageBits

  const MODES_LONG_MSG_BYTES: nat := 14
  const MODES_SHORT_MSG_BYTES: nat := 7
  const FIFTHS_PER_BIT: nat := 12
  // How far behind the last sample of a block the demodulator may read.
  const MAG_PADDING: nat := 512

  // --------------------------------------------------------------- the correlators

  function SlicePhase0(m: seq<int>, p: nat): int
    requires p + 3 < |m|
  {
    18 * m[p] - 15 * m[p + 1] - 3 * m[p + 2]
  }

  function SlicePhase1(m: seq<int>, p: nat): int
    requires p + 3 < |m|
  {
    14 * m[p] - 5 * m[p + 1] - 9 * m[p + 2]
  }

  function SlicePhase2(m: seq<int>, p: nat): int
    requires p + 3 < |m|
  {
    16 * m[p] + 5 * m[p + 1] - 20 * m[p + 2]
  }

  function SlicePhase3(m: seq<int>, p: nat): int
    requires p + 3 < |m|
  {
    7 * m[p] + 11 * m[p + 1] - 18 * m[p + 2]
  }

  function SlicePhase4(m: seq<int>, p: nat): int
    requires p + 3 < |m|
  {
    4 * m[p] + 15 * m[p + 1] - 20 * m[p + 2] + 1 * m[p + 3]
  }

  // The correlator of a phase.
  predicate Correlates(m: seq<int>, phase: nat, p: nat)
    requires p + 3 < |m|
  {
    match phase
    case 0 => SlicePhase0(m, p) > 0
    case 1 => SlicePhase1(m, p) > 0
    case 2 => SlicePhase2(m, p) > 0
    case 3 => SlicePhase3(m, p) > 0
    case _ => SlicePhase4(m, p) > 0
  }

  /** The correlators look at differences: a higher level of all samples changes none of them
      but the one of phase 2, which has a slight bias. */
  lemma LevelIsIgnored(m: seq<int>, raised: seq<int>, p: nat, level: int)
    requires p + 3 < |m| == |raised| && forall k :: p <= k <= p + 3 ==> raised[k] == m[k] + level
    ensures SlicePhase0(raised, p) == SlicePhase0(m, p) && SlicePhase1(raised, p) == SlicePhase1(m, p)
    ensures SlicePhase2(raised, p) == SlicePhase2(m, p) + level
    ensures SlicePhase3(raised, p) == SlicePhase3(m, p) && SlicePhase4(raised, p) == SlicePhase4(m, p)
  {
    assert raised[p] == m[p] + level && raised[p + 1] == m[p + 1] + level;
    assert raised[p + 2] == m[p + 2] + level && raised[p + 3] == m[p + 3] + level;
  }

  /** The bit that begins at a position counted in fifths of a sample. */
  predicate SliceAt(m: seq<int>, fifths: nat)
    requires fifths / 5 + 3 < |m|
  {
    Correlates(m, fifths % 5, fifths / 5)
  }

  /** n bits from a position on, one every 12 fifths. */
  function SlicedFrom(m: seq<int>, fifths: nat, n: nat): (bits: seq<bool>)
    requires n > 0 ==> (fifths + FIFTHS_PER_BIT * (n - 1)) / 5 + 3 < |m|
    ensures |bits| == n
  {
    seq(n, k requires 0 <= k < n => SliceAt(m, fifths + FIFTHS_PER_BIT * k))
  }

  // ---------------------------------------------------------------------- a byte

  function Weight(set_: bool, weight: bv8): bv8 {
    if set_ then weight else 0
  }

  function MakeByte(c0: bool, c1: bool, c2: bool, c3: bool, c4: bool, c5: bool, c6: bool, c7: bool): bv8 {
    Weight(c0, 0x80) | Weight(c1, 0x40) | Weight(c2, 0x20) | Weight(c3, 0x10) |
    Weight(c4, 0x08) | Weight(c5, 0x04) | Weight(c6, 0x02) | Weight(c7, 0x01)
  }

  lemma MadeBits(bits: seq<bool>)
    requires |bits| == 8
    ensures ByteBits(MakeByte(bits[0], bits[1], bits[2], bits[3], bits[4], bits[5], bits[6], bits[7])) == bits
  {
    hide MakeByte, TopBit;
    var b := MakeByte(bits[0], bits[1], bits[2], bits[3], bits[4], bits[5], bits[6], bits[7]);
    MadeTops(bits[0], bits[1], bits[2], bits[3], bits[4], bits[5], bits[6], bits[7]);
    forall k | 0 <= k < 8
      ensures ByteBits(b)[k] == bits[k]
    {
      assert k == 0 || k == 1 || k == 2 || k == 3 || k == 4 || k == 5 || k == 6 || k == 7;
    }
  }

  lemma MadeTops(c0: bool, c1: bool, c2: bool, c3: bool, c4: bool, c5: bool, c6: bool, c7: bool)
    ensures var b := MakeByte(c0, c1, c2, c3, c4, c5, c6, c7);
      && TopBit(b, 0) == c0 && TopBit(b, 1) == c1 && TopBit(b, 2) == c2 && TopBit(b, 3) == c3
      && TopBit(b, 4) == c4 && TopBit(b, 5) == c5 && TopBit(b, 6) == c6 && TopBit(b, 7) == c7
  {
    hide Mask;
    MadeMasks(c0, c1, c2, c3, c4, c5, c6, c7, MakeByte(c0, c1, c2, c3, c4, c5, c6, c7));
    MaskValue(0);
    MaskValue(1);
    MaskValue(2);
    MaskValue(3);
    MaskValue(4);
    MaskValue(5);
    MaskValue(6);
    MaskValue(7);
  }

  lemma MadeMasks(c0: bool, c1: bool, c2: bool, c3: bool, c4: bool, c5: bool, c6: bool, c7: bool, b: bv8)
    requires b ==
        (if c0 then 0x80 else 0) | (if c1 then 0x40 else 0) | (if c2 then 0x20 else 0) | (if c3 then 0x10 else 0) |
        (if c4 then 0x08 else 0) | (if c5 then 0x04 else 0) | (if c6 then 0x02 else 0) | (if c7 then 0x01 else 0)
    ensures (b & 0x80 != 0) == c0 && (b & 0x40 != 0) == c1 && (b & 0x20 != 0) == c2 && (b & 0x10 != 0) == c3
    ensures (b & 0x08 != 0) == c4 && (b & 0x04 != 0) == c5 && (b & 0x02 != 0) == c6 && (b & 0x01 != 0) == c7
  {
  }

  // The byte whose bits begin at a position.
  function ByteAt(m: seq<int>, fifths: nat): bv8
    requires (fifths + 84) / 5 + 3 < |m|
  {
    MakeByte(SliceAt(m, fifths), SliceAt(m, fifths + 12), SliceAt(m, fifths + 24), SliceAt(m, fifths + 36),
      SliceAt(m, fifths + 48), SliceAt(m, fifths + 60), SliceAt(m, fifths + 72), SliceAt(m, fifths + 84))
  }

  // Bit k of a byte that begins at a pointer and phase.
  predicate CorrelatesAt(m: seq<int>, ptr: nat, phase: nat, k: nat)
    requires ptr + (phase + 12 * k) / 5 + 3 < |m|
  {
    Correlates(m, (phase + 12 * k) % 5, ptr + (phase + 12 * k) / 5)
  }

  lemma OneBit(m: seq<int>, ptr: nat, phase: nat, k: nat)
    requires ptr + (phase + 12 * k) / 5 + 3 < |m|
    ensures (5 * ptr + phase + 12 * k) / 5 == ptr + (phase + 12 * k) / 5
    ensures SliceAt(m, 5 * ptr + phase + 12 * k) == CorrelatesAt(m, ptr, phase, k)
  {
    hide Correlates;
    assert 5 * ptr + (phase + 12 * k) == 5 * (ptr + (phase + 12 * k) / 5) + (phase + 12 * k) % 5;
  }

  lemma EightBits(m: seq<int>, ptr: nat, phase: nat,
                  c0: bool, c1: bool, c2: bool, c3: bool, c4: bool, c5: bool, c6: bool, c7: bool)
    requires phase < 5 && ptr + 20 < |m|
    requires c0 == CorrelatesAt(m, ptr, phase, 0) && c1 == CorrelatesAt(m, ptr, phase, 1)
    requires c2 == CorrelatesAt(m, ptr, phase, 2) && c3 == CorrelatesAt(m, ptr, phase, 3)
    requires c4 == CorrelatesAt(m, ptr, phase, 4) && c5 == CorrelatesAt(m, ptr, phase, 5)
    requires c6 == CorrelatesAt(m, ptr, phase, 6) && c7 == CorrelatesAt(m, ptr, phase, 7)
    ensures MakeByte(c0, c1, c2, c3, c4, c5, c6, c7) == ByteAt(m, 5 * ptr + phase)
  {
    hide CorrelatesAt, MakeByte, SliceAt;
    OneBit(m, ptr, phase, 0);
    OneBit(m, ptr, phase, 1);
    OneBit(m, ptr, phase, 2);
    OneBit(m, ptr, phase, 3);
    OneBit(m, ptr, phase, 4);
    OneBit(m, ptr, phase, 5);
    OneBit(m, ptr, phase, 6);
    OneBit(m, ptr, phase, 7);
  }

  /** A byte holds the bits that follow each other every 12 fifths. */
  lemma ByteHoldsBits(m: seq<int>, fifths: nat)
    requires (fifths + 84) / 5 + 3 < |m|
    ensures ByteBits(ByteAt(m, fifths)) == SlicedFrom(m, fifths, 8)
  {
    hide MakeByte, SliceAt;
    MadeBits(SlicedFrom(m, fifths, 8));
  }

  /** slice_byte: its five unrolled cases are one loop over bits that are 12 fifths apart, and
      leave the pointer and the phase 96 fifths further on. */
  method SliceByte(m: seq<int>, ptr: nat, phase: nat) returns (theByte: bv8, nextPtr: nat, nextPhase: nat)
    requires phase < 5 && ptr + 20 < |m|
    ensures theByte == ByteAt(m, 5 * ptr + phase)
    ensures nextPhase < 5 && 5 * nextPtr + nextPhase == 5 * ptr + phase + 8 * FIFTHS_PER_BIT
  {
    hide SlicePhase0, SlicePhase1, SlicePhase2, SlicePhase3, SlicePhase4, MakeByte, ByteAt;
    match phase {
      case 0 =>
        var c0, c1 := SlicePhase0(m, ptr) > 0, SlicePhase2(m, ptr + 2) > 0;
        var c2, c3 := SlicePhase4(m, ptr + 4) > 0, SlicePhase1(m, ptr + 7) > 0;
        var c4, c5 := SlicePhase3(m, ptr + 9) > 0, SlicePhase0(m, ptr + 12) > 0;
        var c6, c7 := SlicePhase2(m, ptr + 14) > 0, SlicePhase4(m, ptr + 16) > 0;
        theByte := MakeByte(c0, c1, c2, c3, c4, c5, c6, c7);
        EightBits(m, ptr, 0, c0, c1, c2, c3, c4, c5, c6, c7);
        nextPhase, nextPtr := 1, ptr + 19;
      case 1 =>
        var c0, c1 := SlicePhase1(m, ptr) > 0, SlicePhase3(m, ptr + 2) > 0;
        var c2, c3 := SlicePhase0(m, ptr + 5) > 0, SlicePhase2(m, ptr + 7) > 0;
        var c4, c5 := SlicePhase4(m, ptr + 9) > 0, SlicePhase1(m, ptr + 12) > 0;
        var c6, c7 := SlicePhase3(m, ptr + 14) > 0, SlicePhase0(m, ptr + 17) > 0;
        theByte := MakeByte(c0, c1, c2, c3, c4, c5, c6, c7);
        EightBits(m, ptr, 1, c0, c1, c2, c3, c4, c5, c6, c7);
        nextPhase, nextPtr := 2, ptr + 19;
      case 2 =>
        var c0, c1 := SlicePhase2(m, ptr) > 0, SlicePhase4(m, ptr + 2) > 0;
        var c2, c3 := SlicePhase1(m, ptr + 5) > 0, SlicePhase3(m, ptr + 7) > 0;
        var c4, c5 := SlicePhase0(m, ptr + 10) > 0, SlicePhase2(m, ptr + 12) > 0;
        var c6, c7 := SlicePhase4(m, ptr + 14) > 0, SlicePhase1(m, ptr + 17) > 0;
        theByte := MakeByte(c0, c1, c2, c3, c4, c5, c6, c7);
        EightBits(m, ptr, 2, c0, c1, c2, c3, c4, c5, c6, c7);
        nextPhase, nextPtr := 3, ptr + 19;
      case 3 =>
        var c0, c1 := SlicePhase3(m, ptr) > 0, SlicePhase0(m, ptr + 3) > 0;
        var c2, c3 := SlicePhase2(m, ptr + 5) > 0, SlicePhase4(m, ptr + 7) > 0;
        var c4, c5 := SlicePhase1(m, ptr + 10) > 0, SlicePhase3(m, ptr + 12) > 0;
        var c6, c7 := SlicePhase0(m, ptr + 15) > 0, SlicePhase2(m, ptr + 17) > 0;
        theByte := MakeByte(c0, c1, c2, c3, c4, c5, c6, c7);
        EightBits(m, ptr, 3, c0, c1, c2, c3, c4, c5, c6, c7);
        nextPhase, nextPtr := 4, ptr + 19;
      case _ =>
        var c0, c1 := SlicePhase4(m, ptr) > 0, SlicePhase1(m, ptr + 3) > 0;
        var c2, c3 := SlicePhase3(m, ptr + 5) > 0, SlicePhase0(m, ptr + 8) > 0;
        var c4, c5 := SlicePhase2(m, ptr + 10) > 0, SlicePhase4(m, ptr + 12) > 0;
        var c6, c7 := SlicePhase1(m, ptr + 15) > 0, SlicePhase3(m, ptr + 17) > 0;
        theByte := MakeByte(c0, c1, c2, c3, c4, c5, c6, c7);
        EightBits(m, ptr, 4, c0, c1, c2, c3, c4, c5, c6, c7);
        nextPhase, nextPtr := 0, ptr + 20;
    }
  }
}
