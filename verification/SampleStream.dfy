/** The simple mode of native_modes_decoder.cpp: bytes of I and Q samples arrive in calls of
    any size, and Mode S messages are sliced out of the stream of their magnitudes. */
module SampleStream {
  import opened Basics
  import opened Polynomial
  import opened MessageBits
  import opened Checksum
  import opened BridgeParity
  import opened IqStream

  const MAG_TAIL_SIZE: nat := 256
  const PREAMBLE_SAMPLES: nat := 16
  const MESSAGE_SAMPLES: nat := 224
  const WINDOW: nat := 240

  // ------------------------------------------------------------------- the stream

  function Magnitude(i: bv8, q: bv8): int {
    var iSample, qSample := (i as int) - 127, (q as int) - 127;
    iSample * iSample + qSample * qSample
  }

  // ------------------------------------------------------------------ the detector

  predicate LooksLikePreamble(mag: seq<int>, pos: nat)
    requires pos + PREAMBLE_SAMPLES <= |mag|
  {
    var p0, p1 := Max(mag[pos], mag[pos + 1]), Max(mag[pos + 2], mag[pos + 3]);
    var p2, p3 := Max(mag[pos + 7], mag[pos + 8]), Max(mag[pos + 9], mag[pos + 10]);
    var quietSum := mag[pos + 4] + mag[pos + 5] + mag[pos + 6] +
                     mag[pos + 11] + mag[pos + 12] + mag[pos + 13] + mag[pos + 14] + mag[pos + 15];
    var quietAverage := quietSum / 8;
    var quietMax := Max(Max(Max(mag[pos + 4], mag[pos + 5]), Max(mag[pos + 6], mag[pos + 11])),
                         Max(Max(mag[pos + 12], mag[pos + 13]), Max(mag[pos + 14], mag[pos + 15])));
    var peakMin := Min(Min(p0, p1), Min(p2, p3));
    var peakSum := p0 + p1 + p2 + p3;
    peakMin * 3 > quietAverage * 5 && peakMin * 4 > quietMax * 5 && peakSum > quietSum
  }

  // A bit is half a microsecond high and half a microsecond low.
  predicate ClearBit(mag: seq<int>, start: nat, bit: nat)
    requires start + 2 * bit + 1 < |mag|
  {
    var diff := mag[start + 2 * bit] - mag[start + 2 * bit + 1];
    (if diff < 0 then -diff else diff) * 16 >= mag[start + 2 * bit] + mag[start + 2 * bit + 1]
  }

  predicate HighFirst(mag: seq<int>, start: nat, bit: nat)
    requires start + 2 * bit + 1 < |mag|
  {
    mag[start + 2 * bit] - mag[start + 2 * bit + 1] > 0
  }

  function SlicedBits(mag: seq<int>, start: nat, n: nat): seq<bool>
    requires start + 2 * n <= |mag|
  {
    seq(n, bit requires 0 <= bit < n => HighFirst(mag, start, bit))
  }

  // Formats 17 and 18, in the first five bits.
  predicate ExtendedSquitterBits(bits: seq<bool>)
    requires |bits| >= 5
  {
    bits[0] && !bits[1] && !bits[2] && bits[3] != bits[4]
  }

  predicate AllClear(mag: seq<int>, start: nat)
    requires start + MESSAGE_SAMPLES <= |mag|
  {
    forall bit :: 0 <= bit < LONG_MSG_BITS ==> ClearBit(mag, start, bit)
  }

  /** What decode_message accepts. */
  predicate Decodes(mag: seq<int>, start: nat, readsbCore: bool) {
    && start + MESSAGE_SAMPLES <= |mag|
    && AllClear(mag, start)
    && ExtendedSquitterBits(SlicedBits(mag, start, LONG_MSG_BITS))
    && (readsbCore || Remainder(SlicedBits(mag, start, LONG_MSG_BITS)) == 0)
  }

  // ------------------------------------------------------------------- the slicer

  function OrByte(a: bv8, b: bv8): bv8 {
    a | b
  }

  lemma OrUnsetBit(b: bv8, j: nat)
    requires j < 8 && !TopBit(b, j)
    ensures OrByte(b, Mask(j)) == XorByte(b, Mask(j))
  {
    MaskValue(j);
    OrIsXor(b, Mask(j));
  }

  lemma OrIsXor(b: bv8, m: bv8)
    requires b & m == 0
    ensures b | m == b ^ m
  {
  }

  // Setting the next bit of a partly filled message.
  lemma BitSet(msg: seq<bv8>, bits: seq<bool>, bit: nat)
    requires |msg| == MESSAGE_BYTES && bit < LONG_MSG_BITS && |bits| == bit
    requires BitsOf(msg) == bits + Zeros(LONG_MSG_BITS - bit)
    ensures BitsOf(msg[bit / 8 := OrByte(msg[bit / 8], Mask(bit % 8))]) ==
        bits + [true] + Zeros(LONG_MSG_BITS - bit - 1)
  {
    hide TopBit, Mask, OrByte, XorByte;
    assert !BitsOf(msg)[bit];
    OrUnsetBit(msg[bit / 8], bit % 8);
    FlipBitFlips(msg, bit);
    var l, r := Flip(BitsOf(msg), {bit}), bits + [true] + Zeros(LONG_MSG_BITS - bit - 1);
    forall k | 0 <= k < LONG_MSG_BITS
      ensures l[k] == r[k]
    {
      assert BitsOf(msg)[k] == (bits + Zeros(LONG_MSG_BITS - bit))[k];
    }
  }

  // The format of a message, by its first five bits.
  lemma FormatBits(msg: seq<bv8>)
    requires |msg| == MESSAGE_BYTES
    ensures msg[0] >> 3 == 17 || msg[0] >> 3 == 18 <==> ExtendedSquitterBits(BitsOf(msg))
  {
    var b := msg[0];
    FirstFive(b);
    MaskValue(0);
    MaskValue(1);
    MaskValue(2);
    MaskValue(3);
    MaskValue(4);
    assert BitsOf(msg)[0] == TopBit(b, 0) && BitsOf(msg)[1] == TopBit(b, 1) && BitsOf(msg)[2] == TopBit(b, 2);
    assert BitsOf(msg)[3] == TopBit(b, 3) && BitsOf(msg)[4] == TopBit(b, 4);
  }

  lemma FirstFive(b: bv8)
    ensures b >> 3 == 17 || b >> 3 == 18 <==>
      b & 0x80 != 0 && b & 0x40 == 0 && b & 0x20 == 0 && (b & 0x10 != 0) != (b & 0x08 != 0)
  {
  }

  /** decode_message fills in the message that the samples spell, and accepts it exactly when
      every bit is clear, the format is an extended squitter's and the parity is right. */
  method DecodeMessage(mag: seq<int>, start: nat, message: array<bv8>, readsbCore: bool) returns (ok: bool)
    requires message.Length == MESSAGE_BYTES
    modifies message
    ensures ok <==> Decodes(mag, start, readsbCore)
    ensures ok ==> BitsOf(message[..]) == SlicedBits(mag, start, LONG_MSG_BITS)
  {
    hide TopBit, Mask, OrByte, Remainder, ExtendedSquitterBits;
    if start + MESSAGE_SAMPLES > |mag| {
      return false;
    }
    forall k | 0 <= k < MESSAGE_BYTES {
      message[k] := 0;
    }
    assert message[..] == seq(MESSAGE_BYTES, _ => 0);
    BitsOfZeros(MESSAGE_BYTES);
    assert SlicedBits(mag, start, 0) + Zeros(LONG_MSG_BITS) == Zeros(LONG_MSG_BITS);
    for bit := 0 to LONG_MSG_BITS
      invariant BitsOf(message[..]) == SlicedBits(mag, start, bit) + Zeros(LONG_MSG_BITS - bit)
      invariant forall b :: 0 <= b < bit ==> ClearBit(mag, start, b)
    {
      var first, second := mag[start + bit * 2], mag[start + bit * 2 + 1];
      var signal, diff := first + second, first - second;
      if (if diff < 0 then -diff else diff) * 16 < signal {
        assert !ClearBit(mag, start, bit);
        return false;
      }
      if diff > 0 {
        BitSet(message[..], SlicedBits(mag, start, bit), bit);
        ghost var was := message[..];
        message[bit / 8] := OrByte(message[bit / 8], Mask(bit % 8));
        assert message[..] == was[bit / 8 := OrByte(was[bit / 8], Mask(bit % 8))];
        assert SlicedBits(mag, start, bit + 1) == SlicedBits(mag, start, bit) + [true];
      } else {
        assert SlicedBits(mag, start, bit + 1) == SlicedBits(mag, start, bit) + [false];
        assert Zeros(LONG_MSG_BITS - bit) == [false] + Zeros(LONG_MSG_BITS - bit - 1);
      }
    }
    assert SlicedBits(mag, start, LONG_MSG_BITS) + Zeros(0) == SlicedBits(mag, start, LONG_MSG_BITS);
    FormatBits(message[..]);
    var df := message[0] >> 3;
    if df != 17 && df != 18 {
      return false;
    }
    if readsbCore {
      return true;
    }
    ok := ValidChecksum(message[..]);
  }

  // -------------------------------------------------------------------- the scan

  /** A message starts at p: a preamble, and the bits of a valid message behind it. */
  predicate Accepts(mag: seq<int>, p: nat) {
    p + WINDOW <= |mag| && LooksLikePreamble(mag, p) && Decodes(mag, p + PREAMBLE_SAMPLES, false)
  }

  // Acceptance looks at the window only.
  lemma AcceptsWindow(mag: seq<int>, p: nat)
    requires p + WINDOW <= |mag|
    ensures Accepts(mag, p) <==> Accepts(mag[p..p + WINDOW], 0)
    ensures SlicedBits(mag, p + PREAMBLE_SAMPLES, LONG_MSG_BITS) ==
        SlicedBits(mag[p..p + WINDOW], PREAMBLE_SAMPLES, LONG_MSG_BITS)
  {
    hide LooksLikePreamble, Decodes;
    PreambleWindow(mag, p);
    DecodesWindow(mag, p);
  }

  lemma DecodesWindow(mag: seq<int>, p: nat)
    requires p + WINDOW <= |mag|
    ensures Decodes(mag, p + PREAMBLE_SAMPLES, false) <==> Decodes(mag[p..p + WINDOW], PREAMBLE_SAMPLES, false)
    ensures SlicedBits(mag, p + PREAMBLE_SAMPLES, LONG_MSG_BITS) ==
        SlicedBits(mag[p..p + WINDOW], PREAMBLE_SAMPLES, LONG_MSG_BITS)
  {
    hide ExtendedSquitterBits, Remainder, ClearBit, HighFirst;
    var w := mag[p..p + WINDOW];
    var start := p + PREAMBLE_SAMPLES;
    forall bit | 0 <= bit < LONG_MSG_BITS
      ensures HighFirst(mag, start, bit) == HighFirst(w, PREAMBLE_SAMPLES, bit)
      ensures ClearBit(mag, start, bit) == ClearBit(w, PREAMBLE_SAMPLES, bit)
    {
      BitWindow(mag, p, bit);
    }
    SameClear(mag, start, w, PREAMBLE_SAMPLES);
    assert SlicedBits(mag, p + PREAMBLE_SAMPLES, LONG_MSG_BITS) == SlicedBits(w, PREAMBLE_SAMPLES, LONG_MSG_BITS);
  }

  lemma SameClear(a: seq<int>, i: nat, b: seq<int>, j: nat)
    requires i + MESSAGE_SAMPLES <= |a| && j + MESSAGE_SAMPLES <= |b|
    requires forall bit :: 0 <= bit < LONG_MSG_BITS ==> ClearBit(a, i, bit) == ClearBit(b, j, bit)
    ensures AllClear(a, i) <==> AllClear(b, j)
  {
    hide ClearBit;
    if AllClear(a, i) {
      forall bit | 0 <= bit < LONG_MSG_BITS
        ensures ClearBit(b, j, bit)
      {
        assert ClearBit(a, i, bit);
      }
    }
    if AllClear(b, j) {
      forall bit | 0 <= bit < LONG_MSG_BITS
        ensures ClearBit(a, i, bit)
      {
        assert ClearBit(b, j, bit);
      }
    }
  }

  lemma BitWindow(mag: seq<int>, p: nat, bit: nat)
    requires p + WINDOW <= |mag| && bit < LONG_MSG_BITS
    ensures ClearBit(mag, p + PREAMBLE_SAMPLES, bit) <==> ClearBit(mag[p..p + WINDOW], PREAMBLE_SAMPLES, bit)
    ensures HighFirst(mag, p + PREAMBLE_SAMPLES, bit) <==> HighFirst(mag[p..p + WINDOW], PREAMBLE_SAMPLES, bit)
  {
  }

  lemma PreambleWindow(mag: seq<int>, p: nat)
    requires p + WINDOW <= |mag|
    ensures LooksLikePreamble(mag, p) <==> LooksLikePreamble(mag[p..p + WINDOW], 0)
  {
    var w := mag[p..p + WINDOW];
    assert forall k :: 0 <= k < PREAMBLE_SAMPLES ==> w[k] == mag[p + k];
  }

  // A message and where it starts.
  ghost predicate MessageAt(mag: seq<int>, message: seq<bv8>, start: nat) {
    Accepts(mag, start) && |message| == MESSAGE_BYTES &&
    BitsOf(message) == SlicedBits(mag, start + PREAMBLE_SAMPLES, LONG_MSG_BITS)
  }

  // The same window of two streams holds the same message.
  lemma SameWindow(mag: seq<int>, p: nat, other: seq<int>, q: nat)
    requires p + WINDOW <= |mag| && q + WINDOW <= |other| && mag[p..p + WINDOW] == other[q..q + WINDOW]
    ensures Accepts(mag, p) <==> Accepts(other, q)
    ensures forall message :: MessageAt(mag, message, p) <==> MessageAt(other, message, q)
  {
    hide Accepts, SlicedBits;
    AcceptsWindow(mag, p);
    AcceptsWindow(other, q);
  }

  // Position p lies in a message that was reported.
  ghost predicate Inside(starts: seq<nat>, p: int) {
    exists k :: 0 <= k < |starts| && starts[k] <= p < starts[k] + WINDOW
  }

  ghost predicate AllMessages(mag: seq<int>, messages: seq<seq<bv8>>, starts: seq<nat>) {
    |messages| == |starts| && forall k :: 0 <= k < |starts| ==> MessageAt(mag, messages[k], starts[k])
  }

  ghost predicate Spaced(starts: seq<nat>) {
    forall k :: 0 < k < |starts| ==> starts[k - 1] + WINDOW <= starts[k]
  }

  // Every accepted position before a limit lies in a reported message.
  ghost predicate Covered(mag: seq<int>, starts: seq<nat>, limit: int) {
    forall p: nat {:trigger Accepts(mag, p)} :: p < limit && Accepts(mag, p) ==> Inside(starts, p)
  }

  lemma CoveredSkips(mag: seq<int>, starts: seq<nat>, pos: nat)
    requires Covered(mag, starts, pos) && !Accepts(mag, pos)
    ensures Covered(mag, starts, pos + 1)
  {
    hide Accepts;
  }

  lemma CoveredMore(mag: seq<int>, starts: seq<nat>, pos: nat)
    requires Covered(mag, starts, pos)
    ensures Covered(mag, starts + [pos], pos + WINDOW)
  {
    hide Accepts;
    var longer := starts + [pos];
    forall p: nat | p < pos + WINDOW && Accepts(mag, p)
      ensures Inside(longer, p)
    {
      if p < pos {
        var k :| 0 <= k < |starts| && starts[k] <= p < starts[k] + WINDOW;
        assert longer[k] == starts[k];
      } else {
        assert longer[|starts|] == pos;
      }
    }
  }

  // The scan of nativeProcessIq. An accepted message moves the position past its window.
  method Scan(mag: seq<int>, message: array<bv8>) returns (messages: seq<seq<bv8>>, ghost starts: seq<nat>)
    requires message.Length == MESSAGE_BYTES
    modifies message
    ensures AllMessages(mag, messages, starts) && Spaced(starts)
    ensures Covered(mag, starts, |mag| - WINDOW)
    ensures forall k :: 0 <= k < |starts| ==> starts[k] < |mag| - WINDOW
  {
    hide LooksLikePreamble, Decodes, BitsOf, SlicedBits, Covered;
    messages, starts := [], [];
    var scanLimit := |mag| - PREAMBLE_SAMPLES - MESSAGE_SAMPLES;
    var pos := 0;
    CoveredNothing(mag, scanLimit);
    while pos < scanLimit
      invariant 0 <= pos
      invariant AllMessages(mag, messages, starts) && Spaced(starts)
      invariant forall k :: 0 <= k < |starts| ==> starts[k] < scanLimit
      invariant Covered(mag, starts, pos) && (pos >= scanLimit ==> Covered(mag, starts, scanLimit))
      invariant |starts| > 0 ==> starts[|starts| - 1] + WINDOW <= pos
    {
      var accepted := false;
      if LooksLikePreamble(mag, pos) {
        accepted := DecodeMessage(mag, pos + PREAMBLE_SAMPLES, message, false);
      }
      if accepted {
        CoveredMore(mag, starts, pos);
        messages, starts := messages + [message[..]], starts + [pos];
        pos := pos + PREAMBLE_SAMPLES + MESSAGE_SAMPLES - 1;
      } else {
        CoveredSkips(mag, starts, pos);
      }
      pos := pos + 1;
      CoveredLess(mag, starts, pos, scanLimit);
    }
  }

  lemma CoveredNothing(mag: seq<int>, limit: int)
    ensures Covered(mag, [], 0) && (limit <= 0 ==> Covered(mag, [], limit))
  {
  }

  lemma CoveredLess(mag: seq<int>, starts: seq<nat>, reached: int, limit: int)
    requires Covered(mag, starts, reached)
    ensures limit <= reached ==> Covered(mag, starts, limit)
  {
  }

  // ------------------------------------------------------------- reports on a stream

  // Reports of a stream: every one is a message of the stream, and every accepted position
  // with its whole window and one more sample received lies in one of them.
  ghost predicate Faithful(samples: seq<int>, reported: set<nat>) {
    && (forall m :: m in reported ==> Accepts(samples, m))
    && (forall p: nat {:trigger Accepts(samples, p)} :: p + WINDOW < |samples| && Accepts(samples, p) ==>
        Near(reported, p))
  }

  ghost predicate Near(reported: set<nat>, p: nat) {
    exists m :: m in reported && m <= p < m + WINDOW
  }

  ghost function Placed(starts: seq<nat>, base: nat): seq<nat> {
    seq(|starts|, k requires 0 <= k < |starts| => base + starts[k])
  }

  ghost function Elements(starts: seq<nat>): set<nat> {
    set k | 0 <= k < |starts| :: starts[k]
  }

  // What the scan of a block reports is a message of the stream there.
  lemma PlacedMessage(samples: seq<int>, base: nat, message: seq<bv8>, start: nat)
    requires base <= |samples| && MessageAt(samples[base..], message, start)
    ensures MessageAt(samples, message, base + start)
  {
    SliceOfBlock(samples, base, start);
    SameWindow(samples[base..], start, samples, base + start);
  }

  lemma PlacedMessages(samples: seq<int>, base: nat, messages: seq<seq<bv8>>, starts: seq<nat>)
    requires base <= |samples| && AllMessages(samples[base..], messages, starts) && Spaced(starts)
    ensures AllMessages(samples, messages, Placed(starts, base)) && Spaced(Placed(starts, base))
    ensures forall k :: 0 <= k < |starts| ==> Accepts(samples, base + starts[k])
  {
    hide Accepts;
    forall k | 0 <= k < |starts|
      ensures MessageAt(samples, messages[k], base + starts[k])
    {
      PlacedMessage(samples, base, messages[k], starts[k]);
    }
  }

  lemma SliceOfBlock(samples: seq<int>, base: nat, p: nat)
    requires base <= |samples| && p + WINDOW <= |samples| - base
    ensures samples[base..][p..p + WINDOW] == samples[base + p..base + p + WINDOW]
  {
  }

  /** A call that scans the kept tail and the new samples misses nothing between the calls. */
  lemma CallIsFaithful(before: seq<int>, samples: seq<int>, base: nat, reported: set<nat>, starts: seq<nat>)
    requires before <= samples && Faithful(before, reported)
    requires base <= |before| && (base == 0 || base + WINDOW <= |before|)
    requires forall k :: 0 <= k < |starts| ==> Accepts(samples, base + starts[k])
    requires Covered(samples[base..], starts, |samples| - base - WINDOW)
    ensures Faithful(samples, reported + Elements(Placed(starts, base)))
  {
    hide Accepts;
    var all := reported + Elements(Placed(starts, base));
    forall m | m in all
      ensures Accepts(samples, m)
    {
      if m in reported {
        EarlierMessage(before, samples, m);
      }
    }
    forall p: nat | p + WINDOW < |samples| && Accepts(samples, p)
      ensures Near(all, p)
    {
      if p + WINDOW < |before| {
        assert before[p..p + WINDOW] == samples[p..p + WINDOW];
        SameWindow(before, p, samples, p);
        var m :| m in reported && m <= p < m + WINDOW;
        assert m in all;
      } else {
        SliceOfBlock(samples, base, p - base);
        SameWindow(samples[base..], p - base, samples, p);
        var k :| 0 <= k < |starts| && starts[k] <= p - base < starts[k] + WINDOW;
        assert Placed(starts, base)[k] in all;
      }
    }
  }

  lemma EarlierMessage(before: seq<int>, samples: seq<int>, m: nat)
    requires before <= samples && Accepts(before, m)
    ensures Accepts(samples, m)
  {
    assert before[m..m + WINDOW] == samples[m..m + WINDOW];
    SameWindow(before, m, samples, m);
  }

  // ------------------------------------------------------------------- the decoder

  class Decoder {
    const iq: IqBuffers
    const message: array<bv8>
    // Where messages were reported.
    ghost var reported: set<nat>

    ghost predicate Valid()
      reads this, iq, iq.tail
    {
      && iq.Valid() && iq.magnitude == Magnitude && iq.capacity == MAG_TAIL_SIZE
      && message.Length == MESSAGE_BYTES && (message as object) != iq.mag && (message as object) != iq.tail
      && Faithful(iq.Samples(), reported)
    }

    // nativeReset
    constructor ()
      ensures Valid() && fresh(iq) && fresh(iq.tail) && fresh(iq.mag) && fresh(message)
      ensures iq.stream == [] && reported == {}
    {
      iq := new IqBuffers(Magnitude, MAG_TAIL_SIZE);
      message := new bv8[MESSAGE_BYTES](_ => 0);
      reported := {};
    }

    // The scan of a block, and what it adds to the reports.
    method ScanBlock(magLength: nat, ghost before: seq<int>)
        returns (messages: seq<seq<bv8>>, ghost positions: seq<nat>)
      requires message.Length == MESSAGE_BYTES && (message as object) != iq.mag && (message as object) != iq.tail
      requires Faithful(before, reported) && before <= iq.Samples()
      requires magLength <= iq.mag.Length && magLength <= |iq.Samples()|
      requires iq.mag[..magLength] == iq.Samples()[|iq.Samples()| - magLength..]
      requires magLength == |iq.Samples()| || |iq.Samples()| - magLength + WINDOW <= |before|
      modifies `reported, message
      ensures Faithful(iq.Samples(), reported) && reported == old(reported) + Elements(positions)
      ensures AllMessages(iq.Samples(), messages, positions) && Spaced(positions)
    {
      hide Faithful, Covered, MessageAt, Pairing;
      ghost var samples := iq.Samples();
      ghost var base := |samples| - magLength;
      var found, starts := Scan(iq.mag[..magLength], message);
      messages, positions := found, Placed(starts, base);
      PlacedMessages(samples, base, found, starts);
      CallIsFaithful(before, samples, base, reported, starts);
      reported := reported + Elements(positions);
    }

    // One call with at least one whole sample.
    method ProcessBlock(bytes: seq<bv8>, pairs: nat) returns (messages: seq<seq<bv8>>, ghost positions: seq<nat>)
      requires Valid() && |bytes| > 0 && pairs == |Pairing(Magnitude, iq.Odd() + bytes)| > 0
      modifies `reported, iq, iq.tail, iq.mag, message
      ensures Valid() && iq.stream == old(iq.stream) + bytes
      ensures iq.mag == old(iq.mag) || fresh(iq.mag)
      ensures AllMessages(iq.Samples(), messages, positions) && Spaced(positions)
      ensures reported == old(reported) + Elements(positions)
    {
      hide Faithful, Covered, MessageAt, Pairing, AllMessages, Spaced, Elements, IqBuffers.PendingOk, IqBuffers.TailOk;
      ghost var before := iq.Samples();
      var magLength := iq.ReadBlock(bytes, pairs, 0);
      messages, positions := ScanBlock(magLength, before);
      iq.KeepTail(magLength);
    }

    /** nativeProcessIq in the simple mode. However the bytes are cut into calls, the samples
        are the pairing of all of them; the reports of every call are messages of the stream,
        and none with its window behind it has been missed. */
    method ProcessIq(bytes: seq<bv8>) returns (messages: seq<seq<bv8>>, ghost positions: seq<nat>)
      requires Valid()
      modifies `reported, iq, iq.tail, iq.mag, message
      ensures Valid() && iq.stream == old(iq.stream) + bytes
      ensures iq.mag == old(iq.mag) || fresh(iq.mag)
      ensures AllMessages(iq.Samples(), messages, positions) && Spaced(positions)
      ensures reported == old(reported) + Elements(positions)
    {
      hide Faithful, Covered, MessageAt, Pairing;
      messages, positions := [], [];
      if |bytes| == 0 {
        assert iq.stream + bytes == iq.stream;
        return;
      }
      var pairs := iq.Pairs(bytes);
      iq.PairsRight(bytes);
      if pairs > 0 {
        messages, positions := ProcessBlock(bytes, pairs);
      } else {
        iq.Hold(bytes[0]);
        assert bytes == [bytes[0]];
      }
    }
  }
}
