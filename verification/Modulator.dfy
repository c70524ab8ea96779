/** A transmitter for the demodulator of demod_2400.c: what is sent is found and cut out again,
    wherever it begins between two samples, and in spite of noise. */
module Modulator {
  import opened MessageBits
  import opened Slicer
  import opened Demodulator

  // ---------------------------------------------------------------------- the signal

  // Whether the carrier is on, for every fifth of a sample.
  type Carrier = int -> bool

  function Part(on: bool, a: int): int {
    if on then a else 0
  }

  // What an ideal receiver measures in a sample, when a fifth counts for a.
  function Strength(on: Carrier, p: int, a: int): int {
    Part(on(5 * p), a) + Part(on(5 * p + 1), a) + Part(on(5 * p + 2), a) + Part(on(5 * p + 3), a) +
    Part(on(5 * p + 4), a)
  }

  /** The samples of a signal, each with noise of up to nine tenths of a fifth. */
  ghost predicate Heard(m: seq<int>, on: Carrier, a: int) {
    a > 0 && forall p :: 0 <= p < |m| ==> Near(m[p], Strength(on, p, a), a)
  }

  predicate Near(x: int, y: int, a: int) {
    -9 * a <= 10 * (x - y) <= 9 * a
  }

  // Pulse position modulation: a bit is 12 fifths, the carrier is on in its first half for a
  // one and in its second half for a zero.
  ghost predicate BitSent(on: Carrier, at: int, bit: bool) {
    forall f :: at <= f < at + FIFTHS_PER_BIT ==> on(f) == ((f < at + 6) == bit)
  }

  ghost predicate Sent(on: Carrier, at: int, bits: seq<bool>) {
    forall k :: 0 <= k < |bits| ==> BitSent(on, at + FIFTHS_PER_BIT * k, bits[k])
  }

  // The four pulses of a preamble, half a microsecond each, in its eight microseconds.
  predicate Pulse(j: int) {
    0 <= j < 6 || 12 <= j < 18 || 42 <= j < 48 || 54 <= j < 60
  }

  // A preamble behind a sample of silence.
  ghost predicate PreambleSent(on: Carrier, at: int) {
    forall f :: at - 5 <= f < at + 96 ==> on(f) == Pulse(f - at)
  }

  /** A whole message, its preamble first. */
  ghost predicate Transmitted(on: Carrier, at: int, msg: seq<bv8>) {
    PreambleSent(on, at) && Sent(on, at + 96, BitsOf(msg))
  }

  // ------------------------------------------------------------------------ one bit

  lemma Phase0IsRight(m: seq<int>, on: Carrier, a: int, p: nat, bit: bool)
    requires Heard(m, on, a) && p + 3 < |m| && BitSent(on, 5 * p + 0, bit)
    ensures SlicePhase0(m, p) > 0 <==> bit
  {
    assert Near(m[p], Strength(on, p, a), a) && Near(m[p + 1], Strength(on, p + 1, a), a);
    assert Near(m[p + 2], Strength(on, p + 2, a), a) && Near(m[p + 3], Strength(on, p + 3, a), a);
  }

  lemma Phase1IsRight(m: seq<int>, on: Carrier, a: int, p: nat, bit: bool)
    requires Heard(m, on, a) && p + 3 < |m| && BitSent(on, 5 * p + 1, bit)
    ensures SlicePhase1(m, p) > 0 <==> bit
  {
    assert Near(m[p], Strength(on, p, a), a) && Near(m[p + 1], Strength(on, p + 1, a), a);
    assert Near(m[p + 2], Strength(on, p + 2, a), a) && Near(m[p + 3], Strength(on, p + 3, a), a);
  }

  lemma Phase2IsRight(m: seq<int>, on: Carrier, a: int, p: nat, bit: bool)
    requires Heard(m, on, a) && p + 3 < |m| && BitSent(on, 5 * p + 2, bit)
    ensures SlicePhase2(m, p) > 0 <==> bit
  {
    assert Near(m[p], Strength(on, p, a), a) && Near(m[p + 1], Strength(on, p + 1, a), a);
    assert Near(m[p + 2], Strength(on, p + 2, a), a) && Near(m[p + 3], Strength(on, p + 3, a), a);
  }

  lemma Phase3IsRight(m: seq<int>, on: Carrier, a: int, p: nat, bit: bool)
    requires Heard(m, on, a) && p + 3 < |m| && BitSent(on, 5 * p + 3, bit)
    ensures SlicePhase3(m, p) > 0 <==> bit
  {
    assert Near(m[p], Strength(on, p, a), a) && Near(m[p + 1], Strength(on, p + 1, a), a);
    assert Near(m[p + 2], Strength(on, p + 2, a), a) && Near(m[p + 3], Strength(on, p + 3, a), a);
  }

  lemma Phase4IsRight(m: seq<int>, on: Carrier, a: int, p: nat, bit: bool)
    requires Heard(m, on, a) && p + 3 < |m| && BitSent(on, 5 * p + 4, bit)
    ensures SlicePhase4(m, p) > 0 <==> bit
  {
    assert Near(m[p], Strength(on, p, a), a) && Near(m[p + 1], Strength(on, p + 1, a), a);
    assert Near(m[p + 2], Strength(on, p + 2, a), a) && Near(m[p + 3], Strength(on, p + 3, a), a);
  }

  /** Each of the five correlators gives the bit that was sent, whatever its neighbours are. */
  lemma BitIsSliced(m: seq<int>, on: Carrier, a: int, p: nat, phase: nat, bit: bool)
    requires Heard(m, on, a) && phase < 5 && p + 3 < |m| && BitSent(on, 5 * p + phase, bit)
    ensures Correlates(m, phase, p) == bit
  {
    hide Heard, BitSent, SlicePhase0, SlicePhase1, SlicePhase2, SlicePhase3, SlicePhase4;
    match phase
    case 0 => Phase0IsRight(m, on, a, p, bit);
    case 1 => Phase1IsRight(m, on, a, p, bit);
    case 2 => Phase2IsRight(m, on, a, p, bit);
    case 3 => Phase3IsRight(m, on, a, p, bit);
    case _ => Phase4IsRight(m, on, a, p, bit);
  }

  lemma SentIsSliced(m: seq<int>, on: Carrier, a: int, at: nat, bits: seq<bool>)
    requires Heard(m, on, a) && Sent(on, at, bits)
    requires |bits| > 0 ==> (at + FIFTHS_PER_BIT * (|bits| - 1)) / 5 + 3 < |m|
    ensures SlicedFrom(m, at, |bits|) == bits
  {
    hide Heard, BitSent, Correlates;
    forall k | 0 <= k < |bits|
      ensures SlicedFrom(m, at, |bits|)[k] == bits[k]
    {
      var fifths := at + FIFTHS_PER_BIT * k;
      assert BitSent(on, fifths, bits[k]);
      BitIsSliced(m, on, a, fifths / 5, fifths % 5, bits[k]);
    }
  }

  // --------------------------------------------------------------------- the message

  lemma MessageIsSliced(m: seq<int>, on: Carrier, a: int, at: nat, msg: seq<bv8>)
    requires Heard(m, on, a) && Sent(on, at, BitsOf(msg)) && |msg| > 0
    requires (at + 96 * (|msg| - 1) + 84) / 5 + 3 < |m|
    ensures Sliced(m, at, |msg|) == msg
  {
    hide Heard, Sent, ByteAt, SlicedFrom, BitsOf;
    BitsLength(msg);
    SlicedHoldsBits(m, at, |msg|);
    SentIsSliced(m, on, a, at, BitsOf(msg));
    SameBits(Sliced(m, at, |msg|), msg);
  }

  lemma BitsLength(msg: seq<bv8>)
    ensures |BitsOf(msg)| == 8 * |msg|
  {
  }

  // -------------------------------------------------------------------- the preamble

  // What the fifths from j on of a preamble amount to in a sample.
  function PulseStrength(j: int, a: int): int {
    Part(Pulse(j), a) + Part(Pulse(j + 1), a) + Part(Pulse(j + 2), a) + Part(Pulse(j + 3), a) + Part(Pulse(j + 4), a)
  }

  // Sample k behind the position of a preamble.
  lemma PulseHeard(m: seq<int>, on: Carrier, a: int, pa: nat, tryPhase: nat, k: nat)
    requires Heard(m, on, a) && 4 <= tryPhase <= 8 && 1 <= k <= 18 && pa + k < |m|
    requires PreambleSent(on, 5 * pa + tryPhase - 1)
    ensures SampleRight(m, pa, a, tryPhase, k)
  {
    hide Pulse, Near, Part;
    assert Near(m[pa + k], Strength(on, pa + k, a), a);
    var f := 5 * (pa + k);
    assert on(f) == Pulse(f - (5 * pa + tryPhase - 1));
    assert on(f + 1) == Pulse(f + 1 - (5 * pa + tryPhase - 1)) && on(f + 2) == Pulse(f + 2 - (5 * pa + tryPhase - 1));
    assert on(f + 3) == Pulse(f + 3 - (5 * pa + tryPhase - 1)) && on(f + 4) == Pulse(f + 4 - (5 * pa + tryPhase - 1));
  }

  // The samples near a preamble, counted from its position.
  predicate SampleRight(m: seq<int>, pa: nat, a: int, tryPhase: nat, k: nat)
    requires pa + k < |m|
  {
    Near(m[pa + k], PulseStrength(5 * k + 1 - tryPhase, a), a)
  }

  predicate Profile(m: seq<int>, pa: nat, a: int, tryPhase: nat)
    requires pa + 18 < |m|
  {
    forall k :: 1 <= k <= 18 ==> SampleRight(m, pa, a, tryPhase, k)
  }

  lemma NoiseLevel(sum: int, threshold: int, a: int)
    requires 10 * sum <= 45 * a && a > 0 && 0 <= threshold <= 83
    ensures 10 * (sum * threshold / 32) <= 117 * a
  {
    if sum <= 0 {
      assert sum * threshold <= 0;
    } else {
      assert sum * threshold <= sum * 83;
    }
  }

  // The samples beside the pulses are quiet.
  lemma QuietSamples(m: seq<int>, a: int, pa: nat, tryPhase: nat, threshold: int)
    requires Readable(m, pa) && 4 <= tryPhase <= 8 && 0 <= threshold <= 83 && a > 0
    requires Profile(m, pa, a, tryPhase)
    ensures 10 * ((m[pa + 5] + m[pa + 8] + m[pa + 16] + m[pa + 17] + m[pa + 18]) * threshold / 32) <= 117 * a
    ensures 10 * m[pa + 7] <= 9 * a && 10 * m[pa + 14] <= 9 * a && 10 * m[pa + 15] <= 9 * a
  {
    assert SampleRight(m, pa, a, tryPhase, 5) && SampleRight(m, pa, a, tryPhase, 7);
    assert SampleRight(m, pa, a, tryPhase, 8) && SampleRight(m, pa, a, tryPhase, 14);
    assert SampleRight(m, pa, a, tryPhase, 15) && SampleRight(m, pa, a, tryPhase, 16);
    assert SampleRight(m, pa, a, tryPhase, 17) && SampleRight(m, pa, a, tryPhase, 18);
    NoiseLevel(m[pa + 5] + m[pa + 8] + m[pa + 16] + m[pa + 17] + m[pa + 18], threshold, a);
  }

  lemma LoudIn4(m: seq<int>, a: int, pa: nat, threshold: int)
    requires Readable(m, pa) && 0 <= threshold <= 83 && a > 0 && Profile(m, pa, a, 4)
    ensures PreCheck(m, pa) && 4 in LoudPhases(m, pa, threshold)
  {
    QuietSamples(m, a, pa, 4, threshold);
    assert SampleRight(m, pa, a, 4, 1) && SampleRight(m, pa, a, 4, 2);
    assert SampleRight(m, pa, a, 4, 3) && SampleRight(m, pa, a, 4, 4);
    assert SampleRight(m, pa, a, 4, 9) && SampleRight(m, pa, a, 4, 10);
    assert SampleRight(m, pa, a, 4, 11) && SampleRight(m, pa, a, 4, 12);
  }

  lemma LoudIn5(m: seq<int>, a: int, pa: nat, threshold: int)
    requires Readable(m, pa) && 0 <= threshold <= 83 && a > 0 && Profile(m, pa, a, 5)
    ensures PreCheck(m, pa) && 5 in LoudPhases(m, pa, threshold)
  {
    QuietSamples(m, a, pa, 5, threshold);
    assert SampleRight(m, pa, a, 5, 1) && SampleRight(m, pa, a, 5, 2);
    assert SampleRight(m, pa, a, 5, 3) && SampleRight(m, pa, a, 5, 4);
    assert SampleRight(m, pa, a, 5, 9) && SampleRight(m, pa, a, 5, 10);
    assert SampleRight(m, pa, a, 5, 11) && SampleRight(m, pa, a, 5, 12);
  }

  lemma LoudIn6(m: seq<int>, a: int, pa: nat, threshold: int)
    requires Readable(m, pa) && 0 <= threshold <= 83 && a > 0 && Profile(m, pa, a, 6)
    ensures PreCheck(m, pa) && 6 in LoudPhases(m, pa, threshold)
  {
    QuietSamples(m, a, pa, 6, threshold);
    assert SampleRight(m, pa, a, 6, 1) && SampleRight(m, pa, a, 6, 2);
    assert SampleRight(m, pa, a, 6, 3) && SampleRight(m, pa, a, 6, 4);
    assert SampleRight(m, pa, a, 6, 9) && SampleRight(m, pa, a, 6, 10);
    assert SampleRight(m, pa, a, 6, 11) && SampleRight(m, pa, a, 6, 12);
  }

  lemma LoudIn7(m: seq<int>, a: int, pa: nat, threshold: int)
    requires Readable(m, pa) && 0 <= threshold <= 83 && a > 0 && Profile(m, pa, a, 7)
    ensures PreCheck(m, pa) && 7 in LoudPhases(m, pa, threshold)
  {
    QuietSamples(m, a, pa, 7, threshold);
    assert SampleRight(m, pa, a, 7, 1) && SampleRight(m, pa, a, 7, 2);
    assert SampleRight(m, pa, a, 7, 3) && SampleRight(m, pa, a, 7, 4);
    assert SampleRight(m, pa, a, 7, 9) && SampleRight(m, pa, a, 7, 10);
    assert SampleRight(m, pa, a, 7, 11) && SampleRight(m, pa, a, 7, 12);
  }

  lemma LoudIn8(m: seq<int>, a: int, pa: nat, threshold: int)
    requires Readable(m, pa) && 0 <= threshold <= 83 && a > 0 && Profile(m, pa, a, 8)
    ensures PreCheck(m, pa) && 8 in LoudPhases(m, pa, threshold)
  {
    QuietSamples(m, a, pa, 8, threshold);
    assert SampleRight(m, pa, a, 8, 1) && SampleRight(m, pa, a, 8, 2);
    assert SampleRight(m, pa, a, 8, 3) && SampleRight(m, pa, a, 8, 4);
    assert SampleRight(m, pa, a, 8, 9) && SampleRight(m, pa, a, 8, 10);
    assert SampleRight(m, pa, a, 8, 11) && SampleRight(m, pa, a, 8, 12);
  }

  /** The position of a preamble passes the pre-check, and its phase is loud enough, for every
      threshold up to 83. */
  lemma PreambleIsFound(m: seq<int>, on: Carrier, a: int, pa: nat, tryPhase: nat, threshold: int)
    requires Heard(m, on, a) && Readable(m, pa) && 4 <= tryPhase <= 8 && 0 <= threshold <= 83
    requires PreambleSent(on, 5 * pa + tryPhase - 1)
    ensures PreCheck(m, pa) && tryPhase in LoudPhases(m, pa, threshold)
  {
    hide Heard, PreambleSent, SampleRight, PreCheck, LoudPhases;
    assert a > 0 by { SomeSample(m, on, a); }
    forall k | 1 <= k <= 18
      ensures SampleRight(m, pa, a, tryPhase, k)
    {
      PulseHeard(m, on, a, pa, tryPhase, k);
    }
    match tryPhase {
      case 4 => LoudIn4(m, a, pa, threshold);
      case 5 => LoudIn5(m, a, pa, threshold);
      case 6 => LoudIn6(m, a, pa, threshold);
      case 7 => LoudIn7(m, a, pa, threshold);
      case _ => LoudIn8(m, a, pa, threshold);
    }
  }

  lemma SomeSample(m: seq<int>, on: Carrier, a: int)
    requires Heard(m, on, a)
    ensures a > 0
  {
  }

  /** A level that does not change is no preamble: it neither passes the pre-check nor is any
      phase loud, for every threshold from 32 on. */
  lemma SteadyIsNotFound(m: seq<int>, level: int, pa: nat, threshold: int)
    requires Readable(m, pa) && level > 0 && threshold >= 32
    requires forall k :: pa < k <= pa + 18 ==> m[k] == level
    ensures !PreCheck(m, pa) && LoudPhases(m, pa, threshold) == []
  {
    var noise := m[pa + 5] + m[pa + 8] + m[pa + 16] + m[pa + 17] + m[pa + 18];
    assert noise == 5 * level && noise * threshold >= noise * 32;
  }

  // ------------------------------------------------------------------- the demodulator

  // A format that is worth slicing, in a message of its length.
  predicate Understood(formats: Formats, msg: seq<bv8>) {
    || (|msg| == 14 && msg[0] >> 3 in formats.long)
    || (|msg| == 7 && msg[0] >> 3 in formats.short && msg[0] >> 3 !in formats.long)
  }

  /** What was sent is found: its place passes the pre-check, its phase is tried, and that
      phase gives the message as it was sent. */
  lemma TransmissionIsFound(m: seq<int>, on: Carrier, a: int, pa: nat, tryPhase: nat, msg: seq<bv8>, threshold: int,
                            formats: Formats)
    requires Heard(m, on, a) && Readable(m, pa) && 4 <= tryPhase <= 8 && 0 <= threshold <= 83
    requires Transmitted(on, 5 * pa + tryPhase - 1, msg) && Understood(formats, msg)
    ensures PreCheck(m, pa) && tryPhase in LoudPhases(m, pa, threshold)
    ensures PhaseMessage(m, pa, tryPhase, formats) == msg
  {
    hide Heard, PreambleSent, Sent, PreCheck, LoudPhases, ByteAt, BitsOf;
    PreambleIsFound(m, on, a, pa, tryPhase, threshold);
    MessageIsSliced(m, on, a, DataStart(pa, tryPhase), msg);
    assert msg[0] == ByteAt(m, DataStart(pa, tryPhase));
  }

  /** Nothing that was sent is passed over: it is tried unless it lies behind an accepted
      message, its attempt scores at least what the message scores, and if its own phase is
      the best the attempt has the message and the time of its preamble. */
  lemma TransmissionIsTried(receiver: Receiver, m: seq<int>, on: Carrier, a: int, pa: nat, tryPhase: nat,
                            msg: seq<bv8>, threshold: int, formats: Formats, sampleTimestamp: int, k: nat, t: Attempt)
    requires Heard(m, on, a) && Readable(m, pa) && 4 <= tryPhase <= 8 && 0 <= threshold <= 83
    requires Transmitted(on, 5 * pa + tryPhase - 1, msg) && Understood(formats, msg)
    requires Honest(receiver, m, threshold, formats, sampleTimestamp, k, t) && t.pos == pa
    ensures t.score >= receiver.score(k)(msg)
    ensures t.score >= 0 && t.phase == tryPhase ==>
      msg <= t.msg && t.score == receiver.score(k)(msg) &&
          t.timestamp == sampleTimestamp + (5 * pa + tryPhase - 1) + 769
  {
    hide Heard, Transmitted, PreCheck, LoudPhases, PhaseMessage;
    TransmissionIsFound(m, on, a, pa, tryPhase, msg, threshold, formats);
    assert PhaseScore(receiver.score(k), m, pa, tryPhase, formats) == receiver.score(k)(msg);
  }
}
