/** A transmitter for the simple mode of native_modes_decoder.cpp, which has two samples for a
    bit: a squitter that is sent is accepted, and nothing else is read from its samples. */
module SquitterSignal {
  import opened Basics
  import opened Polynomial
  import opened MessageBits
  import opened Checksum
  import opened BridgeParity
  import opened Modulator
  import opened SampleStream

  // ---------------------------------------------------------------------- the signal

  // A sample that is on or off, with noise of up to a quarter.
  predicate Level(x: int, on: bool, a: int) {
    -a <= 4 * (x - if on then a else 0) <= a
  }

  // The pulses of the preamble begin after 0, 1, 3.5 and 4.5 microseconds.
  predicate PreambleSample(mag: seq<int>, p: nat, k: nat, a: int)
    requires p + k < |mag|
  {
    Level(mag[p + k], k == 0 || k == 2 || k == 7 || k == 9, a)
  }

  // The first sample of a bit is on for a one, the second for a zero.
  predicate PairSent(mag: seq<int>, at: nat, bit: bool, a: int)
    requires at + 1 < |mag|
  {
    Level(mag[at], bit, a) && Level(mag[at + 1], !bit, a)
  }

  /** A message of amplitude a in the samples from p on. */
  ghost predicate Received(mag: seq<int>, p: nat, msg: seq<bv8>, a: int) {
    && p + WINDOW <= |mag| && |msg| == MESSAGE_BYTES && a > 0
    && (forall k :: 0 <= k < PREAMBLE_SAMPLES ==> PreambleSample(mag, p, k, a))
    && (forall k :: 0 <= k < LONG_MSG_BITS ==>
         PairSent(mag, p + PREAMBLE_SAMPLES + 2 * k, BitAt(msg, k), a))
  }

  lemma Stronger(x: int, y: int, on: bool, a: int)
    requires Level(x, on, a) && Level(y, false, a) && a > 0
    ensures Level(Max(x, y), on, a)
  {
  }

  lemma Weaker(x: int, y: int, a: int)
    requires Level(x, true, a) && Level(y, true, a)
    ensures Level(Min(x, y), true, a)
  {
  }

  lemma PreambleIsSeen(mag: seq<int>, p: nat, a: int)
    requires p + PREAMBLE_SAMPLES <= |mag| && a > 0
    requires forall k :: 0 <= k < PREAMBLE_SAMPLES ==> PreambleSample(mag, p, k, a)
    ensures LooksLikePreamble(mag, p)
  {
    hide Max, Min;
    assert PreambleSample(mag, p, 0, a) && PreambleSample(mag, p, 1, a) && PreambleSample(mag, p, 2, a);
    assert PreambleSample(mag, p, 3, a) && PreambleSample(mag, p, 4, a) && PreambleSample(mag, p, 5, a);
    assert PreambleSample(mag, p, 6, a) && PreambleSample(mag, p, 7, a) && PreambleSample(mag, p, 8, a);
    assert PreambleSample(mag, p, 9, a) && PreambleSample(mag, p, 10, a) && PreambleSample(mag, p, 11, a);
    assert PreambleSample(mag, p, 12, a) && PreambleSample(mag, p, 13, a);
    assert PreambleSample(mag, p, 14, a) && PreambleSample(mag, p, 15, a);
    Stronger(mag[p], mag[p + 1], true, a);
    Stronger(mag[p + 2], mag[p + 3], true, a);
    Stronger(mag[p + 7], mag[p + 8], true, a);
    Stronger(mag[p + 9], mag[p + 10], true, a);
    Weaker(Max(mag[p], mag[p + 1]), Max(mag[p + 2], mag[p + 3]), a);
    Weaker(Max(mag[p + 7], mag[p + 8]), Max(mag[p + 9], mag[p + 10]), a);
    Weaker(Min(Max(mag[p], mag[p + 1]), Max(mag[p + 2], mag[p + 3])),
        Min(Max(mag[p + 7], mag[p + 8]), Max(mag[p + 9], mag[p + 10])), a);
    Stronger(mag[p + 4], mag[p + 5], false, a);
    Stronger(mag[p + 6], mag[p + 11], false, a);
    Stronger(mag[p + 12], mag[p + 13], false, a);
    Stronger(mag[p + 14], mag[p + 15], false, a);
    Stronger(Max(mag[p + 4], mag[p + 5]), Max(mag[p + 6], mag[p + 11]), false, a);
    Stronger(Max(mag[p + 12], mag[p + 13]), Max(mag[p + 14], mag[p + 15]), false, a);
    Stronger(Max(Max(mag[p + 4], mag[p + 5]), Max(mag[p + 6], mag[p + 11])),
        Max(Max(mag[p + 12], mag[p + 13]), Max(mag[p + 14], mag[p + 15])), false, a);
  }

  lemma BitsAreClear(mag: seq<int>, p: nat, msg: seq<bv8>, a: int)
    requires Received(mag, p, msg, a)
    ensures AllClear(mag, p + PREAMBLE_SAMPLES)
    ensures SlicedBits(mag, p + PREAMBLE_SAMPLES, LONG_MSG_BITS) == BitsOf(msg)
  {
    hide TopBit;
    var start := p + PREAMBLE_SAMPLES;
    forall k | 0 <= k < LONG_MSG_BITS
      ensures ClearBit(mag, start, k) && HighFirst(mag, start, k) == BitAt(msg, k)
    {
      assert PairSent(mag, start + 2 * k, BitAt(msg, k), a);
    }
  }

  /** A message that is sent is accepted exactly when its format is 17 or 18 and its parity is
      right, and what is then reported is that message. */
  lemma SquitterIsAccepted(mag: seq<int>, p: nat, msg: seq<bv8>, a: int, reported: seq<bv8>)
    requires Received(mag, p, msg, a)
    ensures Accepts(mag, p) <==> (msg[0] >> 3 == 17 || msg[0] >> 3 == 18) && Syndrome(msg) == 0
    ensures MessageAt(mag, reported, p) ==> reported == msg
  {
    hide LooksLikePreamble, AllClear, SlicedBits, ExtendedSquitterBits, BitsOf, Level, Remainder;
    PreambleIsSeen(mag, p, a);
    BitsAreClear(mag, p, msg, a);
    FormatBits(msg);
    if MessageAt(mag, reported, p) {
      SameBits(reported, msg);
    }
  }

  /** However the bytes come in, a valid squitter that has been sent lies in a reported
      message once one more sample than its own has arrived. */
  lemma SquitterIsReported(samples: seq<int>, reported: set<nat>, p: nat, msg: seq<bv8>, a: int)
    requires Faithful(samples, reported) && Received(samples, p, msg, a) && p + WINDOW < |samples|
    requires (msg[0] >> 3 == 17 || msg[0] >> 3 == 18) && Syndrome(msg) == 0
    ensures exists q: nat :: q in reported && q <= p < q + 240
  {
    hide Accepts, Syndrome;
    SquitterIsAccepted(samples, p, msg, a, msg);
  }

  // --------------------------------------------------- what is taken for a message

  // Four pulses and eight quiet samples.
  predicate Pulse(k: nat) {
    k == 0 || k == 2 || k == 7 || k == 9
  }

  predicate Quiet(k: nat) {
    4 <= k <= 6 || 11 <= k <= 15
  }

  // The larger sample of a pulse.
  function Peak(mag: seq<int>, p: nat, k: nat): int
    requires p + k + 1 < |mag|
  {
    if mag[p + k] >= mag[p + k + 1] then mag[p + k] else mag[p + k + 1]
  }

  function QuietSum(mag: seq<int>, p: nat): int
    requires p + PREAMBLE_SAMPLES <= |mag|
  {
    mag[p + 4] + mag[p + 5] + mag[p + 6] + mag[p + 11] + mag[p + 12] + mag[p + 13] + mag[p + 14] + mag[p + 15]
  }

  // The smallest peak and the largest quiet sample.
  lemma Extremes(mag: seq<int>, p: nat, peakMin: int, quietMax: int)
    requires p + PREAMBLE_SAMPLES <= |mag|
    requires peakMin == Min(Min(Peak(mag, p, 0), Peak(mag, p, 2)), Min(Peak(mag, p, 7), Peak(mag, p, 9)))
    requires quietMax == Max(Max(Max(mag[p + 4], mag[p + 5]), Max(mag[p + 6], mag[p + 11])),
                             Max(Max(mag[p + 12], mag[p + 13]), Max(mag[p + 14], mag[p + 15])))
    ensures forall k :: 0 <= k < 15 && Pulse(k) ==> peakMin <= Peak(mag, p, k)
    ensures exists k :: 0 <= k < 15 && Pulse(k) && peakMin == Peak(mag, p, k)
    ensures forall j :: 0 <= j < 16 && Quiet(j) ==> mag[p + j] <= quietMax
    ensures exists j :: 0 <= j < 16 && Quiet(j) && mag[p + j] == quietMax
  {
    hide Peak;
    assert Pulse(0) && Pulse(2) && Pulse(7) && Pulse(9);
    assert Quiet(4) && Quiet(5) && Quiet(6) && Quiet(11) && Quiet(12) && Quiet(13) && Quiet(14) && Quiet(15);
  }

  lemma PreambleByPeaks(mag: seq<int>, p: nat, peakMin: int, quietMax: int)
    requires p + PREAMBLE_SAMPLES <= |mag|
    requires peakMin == Min(Min(Peak(mag, p, 0), Peak(mag, p, 2)), Min(Peak(mag, p, 7), Peak(mag, p, 9)))
    requires quietMax == Max(Max(Max(mag[p + 4], mag[p + 5]), Max(mag[p + 6], mag[p + 11])),
                             Max(Max(mag[p + 12], mag[p + 13]), Max(mag[p + 14], mag[p + 15])))
    ensures LooksLikePreamble(mag, p) <==>
      && 3 * peakMin > 5 * (QuietSum(mag, p) / 8) && 4 * peakMin > 5 * quietMax
      && Peak(mag, p, 0) + Peak(mag, p, 2) + Peak(mag, p, 7) + Peak(mag, p, 9) > QuietSum(mag, p)
  {
  }

  /** What looks like a preamble: every pulse is more than 5/4 of every quiet sample and more
      than 5/3 of their average rounded down, and the pulses are together more than what is
      quiet. */
  lemma PreambleExactly(mag: seq<int>, p: nat)
    requires p + PREAMBLE_SAMPLES <= |mag|
    ensures LooksLikePreamble(mag, p) <==>
      && (forall k, j {:trigger Peak(mag, p, k), Quiet(j)} :: 0 <= k < 15 && Pulse(k) && 0 <= j < 16 && Quiet(j) ==>
            4 * Peak(mag, p, k) > 5 * mag[p + j])
      && (forall k {:trigger Peak(mag, p, k)} :: 0 <= k < 15 && Pulse(k) ==>
            3 * Peak(mag, p, k) > 5 * (QuietSum(mag, p) / 8))
      && Peak(mag, p, 0) + Peak(mag, p, 2) + Peak(mag, p, 7) + Peak(mag, p, 9) > QuietSum(mag, p)
  {
    hide Peak, Pulse, Quiet, QuietSum, LooksLikePreamble;
    var peakMin := Min(Min(Peak(mag, p, 0), Peak(mag, p, 2)), Min(Peak(mag, p, 7), Peak(mag, p, 9)));
    var quietMax := Max(Max(Max(mag[p + 4], mag[p + 5]), Max(mag[p + 6], mag[p + 11])),
                        Max(Max(mag[p + 12], mag[p + 13]), Max(mag[p + 14], mag[p + 15])));
    Extremes(mag, p, peakMin, quietMax);
    PreambleByPeaks(mag, p, peakMin, quietMax);
    hide Min, Max;
    var lowest :| 0 <= lowest < 15 && Pulse(lowest) && peakMin == Peak(mag, p, lowest);
    var loudest :| 0 <= loudest < 16 && Quiet(loudest) && mag[p + loudest] == quietMax;
  }

  /** A bit is clear when one of its halves is at least 17/15 of the other. */
  lemma ClearExactly(mag: seq<int>, start: nat, bit: nat)
    requires start + 2 * bit + 1 < |mag|
    ensures var first, second := mag[start + 2 * bit], mag[start + 2 * bit + 1];
      ClearBit(mag, start, bit) <==> 15 * Max(first, second) >= 17 * Min(first, second)
  {
  }

  // ------------------------------------------------------------------- the magnitude

  /** The magnitude does not depend on the phase of the carrier: a quarter turn about the
      middle of the range keeps it, and nothing but the middle is silent. */
  lemma MagnitudeTurns(i: bv8, q: bv8, turnedI: bv8, turnedQ: bv8)
    requires (turnedI as int) - 127 == 127 - (q as int) && (turnedQ as int) - 127 == (i as int) - 127
    ensures Magnitude(turnedI, turnedQ) == Magnitude(i, q)
    ensures Magnitude(i, q) >= 0 && (Magnitude(i, q) == 0 <==> i as int == 127 && q as int == 127)
    ensures Magnitude(i, q) > Magnitude(i, 127) <==> q as int != 127
  {
    Squares((i as int) - 127);
    Squares((q as int) - 127);
    Squares(127 - (q as int));
  }

  lemma Squares(x: int)
    ensures x * x >= 0 && (x * x == 0 <==> x == 0) && x * x == (-x) * (-x)
  {
  }
}
