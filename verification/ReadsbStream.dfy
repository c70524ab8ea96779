/** The readsb mode of native_modes_decoder.cpp: every call hands the demodulator a block
    that begins with the tail of the one before and ends with padding. */
module ReadsbStream {
  import opened Basics
  import opened IqStream
  import opened Slicer
  import opened Demodulator

  const READSB_MAG_TAIL_SIZE: nat := 512
  // The 12 MHz clock runs five times between two samples.
  const TICKS_PER_SAMPLE: int := 5

  // The largest number whose square is not above n.
  function Root(n: nat): (r: nat)
    ensures r * r <= n < (r + 1) * (r + 1)
  {
    if n == 0 then 0
    else
      var r := Root(n - 1);
      if (r + 1) * (r + 1) <= n then r + 1 else r
  }

  /** The magnitude of a sample: its distance from the middle, scaled by 364 and truncated. */
  function ReadsbLevel(i: bv8, q: bv8): int {
    LevelAt((i as int) - 127, (q as int) - 127)
  }

  function LevelAt(x: int, y: int): int {
    Min(65535, Root(SquaredDistance(x, y) * 364 * 364))
  }

  function SquaredDistance(x: int, y: int): nat {
    x * x + y * y
  }

  /** A quarter turn of the carrier about the middle of the range keeps the magnitude, and on
      the axes it is 364 for every step from the middle. */
  lemma LevelTurns(x: int, y: int)
    ensures LevelAt(-y, x) == LevelAt(x, y)
    ensures 0 <= x <= 128 ==> LevelAt(x, 0) == 364 * x
  {
    hide Root;
    assert SquaredDistance(-y, x) == SquaredDistance(x, y);
    if 0 <= x <= 128 {
      assert x * x * 364 * 364 == (364 * x) * (364 * x);
      RootOfSquare(364 * x);
    }
  }

  lemma RootOfSquare(r: nat)
    ensures Root(r * r) == r
  {
    hide Root;
    SquaresGrow(Root(r * r) + 1, r);
    SquaresGrow(r + 1, Root(r * r));
  }

  lemma SquaresGrow(a: nat, b: nat)
    ensures a <= b ==> a * a <= b * b
  {
  }

  // What the demodulator is given of a stream: the samples from base on, and padding.
  ghost function Padded(samples: seq<int>, base: nat): seq<int>
    requires base <= |samples|
  {
    samples[base..] + seq(MAG_PADDING, _ => 0)
  }

  // The time of a message by the sample that its preamble begins at, counted from the reset.
  function StreamTime(p: nat, phase: nat): int {
    TICKS_PER_SAMPLE * p + (8 + 56) * 12 + phase
  }

  /** The messages of a block carry the time of their place in the stream, late by some samples. */
  ghost predicate Late(attempts: seq<Attempt>, base: nat, samples: int) {
    forall k :: 0 <= k < |attempts| && attempts[k].score >= 0 ==>
      attempts[k].timestamp == StreamTime(base + attempts[k].pos, attempts[k].phase) + TICKS_PER_SAMPLE * samples
  }

  // The samples of the tail are counted twice.
  lemma HonestIsLate(receiver: Receiver, m: seq<int>, threshold: int, formats: Formats, before: nat,
                     attempts: seq<Attempt>, base: nat)
    requires base <= before && |m| >= MAG_PADDING
    requires AllHonest(receiver, m, threshold, formats, TICKS_PER_SAMPLE * before, attempts)
    ensures Late(attempts, base, before - base)
    ensures Late(attempts, base, 0) <==> before == base || NoCandidates(attempts)
  {
    hide PreCheck, AllAtMost, LoudPhases, PhaseMessage, FirstAt;
  }

  predicate NoCandidates(attempts: seq<Attempt>) {
    forall k :: 0 <= k < |attempts| ==> attempts[k].score < 0
  }

  // Attempts of a block, by their positions in the stream.
  ghost function Moved(attempts: seq<Attempt>, base: nat): seq<Attempt> {
    seq(|attempts|, k requires 0 <= k < |attempts| => attempts[k].(pos := base + attempts[k].pos))
  }

  /** Every position of the stream whose longest message has arrived and that passes the
      pre-check has been tried, or jumped over behind an accepted message. */
  ghost predicate Tried(samples: seq<int>, log: seq<Attempt>) {
    forall p: nat {:trigger PreCheck(samples, p)} :: p + 300 <= |samples| && PreCheck(samples, p) ==> Accounted(log, p)
  }

  lemma AccountedMoved(log: seq<Attempt>, attempts: seq<Attempt>, base: nat, p: nat)
    ensures Accounted(log, p) ==> Accounted(log + Moved(attempts, base), p)
    ensures Accounted(attempts, p) ==> Accounted(log + Moved(attempts, base), base + p)
  {
    hide Skip;
    var all := log + Moved(attempts, base);
    if Accounted(log, p) {
      var k :| 0 <= k < |log| && (log[k].pos == p ||
        (log[k].accepted && |log[k].msg| > 0 && log[k].pos < p <= log[k].pos + Skip(log[k].msg)));
      assert all[k] == log[k];
    }
    if Accounted(attempts, p) {
      var k :| 0 <= k < |attempts| && (attempts[k].pos == p ||
        (attempts[k].accepted && |attempts[k].msg| > 0 &&
            attempts[k].pos < p <= attempts[k].pos + Skip(attempts[k].msg)));
      assert all[|log| + k] == attempts[k].(pos := base + attempts[k].pos);
    }
  }

  /** Between two calls nothing is missed: what the first could not see whole lies in the
      tail that the second begins with. */
  lemma CallTries(before: seq<int>, samples: seq<int>, base: nat, log: seq<Attempt>, attempts: seq<Attempt>)
    requires before <= samples && Tried(before, log) && base <= |before| && (base == 0 || base + 300 <= |before|)
    requires forall q: nat :: q < |samples| - base && PreCheck(Padded(samples, base), q) ==> Accounted(attempts, q)
    ensures Tried(samples, log + Moved(attempts, base))
  {
    hide Accounted;
    forall p: nat | p + 300 <= |samples| && PreCheck(samples, p)
      ensures Accounted(log + Moved(attempts, base), p)
    {
      if p + 300 <= |before| {
        assert PreCheck(before, p);
        AccountedMoved(log, attempts, base, p);
      } else {
        assert PreCheck(Padded(samples, base), p - base);
        AccountedMoved(log, attempts, base, p - base);
      }
    }
  }

  // std::fill over the padding.
  method ClearPadding(mag: array<int>, magLength: nat)
    requires magLength + MAG_PADDING <= mag.Length
    modifies mag
    ensures mag[..magLength] == old(mag[..magLength])
    ensures mag[magLength..magLength + MAG_PADDING] == seq(MAG_PADDING, _ => 0)
  {
    for i := 0 to MAG_PADDING
      invariant mag[..magLength] == old(mag[..magLength])
      invariant forall k :: magLength <= k < magLength + i ==> mag[k] == 0
    {
      mag[magLength + i] := 0;
    }
  }

  class ReadsbDecoder {
    const iq: IqBuffers
    var readsbSampleTimestamp: int
    // What was tried since the reset.
    ghost var log: seq<Attempt>

    ghost predicate Valid()
      reads this, iq, iq.tail
    {
      && iq.Valid() && iq.capacity == READSB_MAG_TAIL_SIZE
      && readsbSampleTimestamp == TICKS_PER_SAMPLE * |iq.Samples()|
      && Tried(iq.Samples(), log)
    }

    constructor (magnitude: Detector)
      ensures Valid() && fresh(iq) && fresh(iq.tail) && fresh(iq.mag) && iq.stream == [] && log == []
      ensures iq.magnitude == magnitude
    {
      iq := new IqBuffers(magnitude, READSB_MAG_TAIL_SIZE);
      readsbSampleTimestamp := 0;
      log := [];
    }

    // One call with at least one whole sample.
    method DemodulateBlock(bytes: seq<bv8>, pairs: nat, threshold: int, receiver: Receiver, formats: Formats,
                           limits: Limits)
        returns (attempts: seq<Attempt>, ghost base: nat)
      requires Valid() && |bytes| > 0 && pairs == |Pairing(iq.magnitude, iq.Odd() + bytes)| > 0
      modifies this, iq, iq.tail, iq.mag
      ensures Valid() && iq.stream == old(iq.stream) + bytes && (iq.mag == old(iq.mag) || fresh(iq.mag))
      ensures base == |old(iq.Samples())| - Min(READSB_MAG_TAIL_SIZE, |old(iq.Samples())|) <= |iq.Samples()|
      ensures log == old(log) + Moved(attempts, base)
      ensures AllHonest(receiver, Padded(iq.Samples(), base), threshold, formats, old(readsbSampleTimestamp), attempts)
    {
      hide Pairing, Tried, Honest, PreCheck, Accounted, IqBuffers.PendingOk;
      ghost var before := iq.Samples();
      var magLength := iq.ReadBlock(bytes, pairs, MAG_PADDING);
      ClearPadding(iq.mag, magLength);
      base := |iq.Samples()| - magLength;
      var block := iq.mag[..magLength + MAG_PADDING];
      assert block == iq.mag[..magLength] + iq.mag[magLength..magLength + MAG_PADDING];
      assert block == Padded(iq.Samples(), base);
      var power, gain;
      ghost var windows;
      attempts, power, gain, windows :=
          Demodulate2400(block, magLength, readsbSampleTimestamp, threshold, receiver, formats, limits);
      CallTries(before, iq.Samples(), base, log, attempts);
      log := log + Moved(attempts, base);
      readsbSampleTimestamp := readsbSampleTimestamp + pairs * TICKS_PER_SAMPLE;
      iq.KeepTail(magLength);
    }

    /** process_readsb_demodulator: over any run of calls the demodulator tries every position
        of the stream, with all the samples of its message, whatever the calls' sizes. */
    method ProcessReadsbDemodulator(bytes: seq<bv8>, threshold: int, receiver: Receiver, formats: Formats,
                           limits: Limits)
        returns (attempts: seq<Attempt>, ghost base: nat)
      requires Valid()
      modifies this, iq, iq.tail, iq.mag
      ensures Valid() && iq.stream == old(iq.stream) + bytes && (iq.mag == old(iq.mag) || fresh(iq.mag))
      ensures base == |old(iq.Samples())| - Min(READSB_MAG_TAIL_SIZE, |old(iq.Samples())|) <= |iq.Samples()|
      ensures log == old(log) + Moved(attempts, base)
      ensures AllHonest(receiver, Padded(iq.Samples(), base), threshold, formats, old(readsbSampleTimestamp), attempts)
      ensures Late(attempts, base, |old(iq.Samples())| - base)
      ensures Late(attempts, base, 0) <==> |old(iq.Samples())| == 0 || NoCandidates(attempts)
    {
      hide Pairing, Tried, Honest;
      attempts := [];
      base := |iq.Samples()| - Min(READSB_MAG_TAIL_SIZE, |iq.Samples()|);
      if |bytes| == 0 {
        assert iq.stream + bytes == iq.stream && log + Moved([], 0) == log;
        return;
      }
      var pairs := iq.Pairs(bytes);
      iq.PairsRight(bytes);
      if pairs <= 0 {
        iq.Hold(bytes[0]);
        assert bytes == [bytes[0]] && log + Moved([], 0) == log;
        return;
      }
      attempts, base := DemodulateBlock(bytes, pairs, threshold, receiver, formats, limits);
      HonestIsLate(receiver, Padded(iq.Samples(), base), threshold, formats, |old(iq.Samples())|, attempts, base);
    }
  }

  ghost predicate AllHonest(receiver: Receiver, m: seq<int>, threshold: int, formats: Formats, sampleTimestamp: int,
                            attempts: seq<Attempt>)
    requires |m| >= MAG_PADDING
  {
    forall k :: 0 <= k < |attempts| ==>
      attempts[k].pos < |m| - MAG_PADDING && Honest(receiver, m, threshold, formats, sampleTimestamp, k, attempts[k])
  }
}
