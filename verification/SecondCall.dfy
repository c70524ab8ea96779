/** A run of the readsb mode in which an accepted message gets the wrong time: the first call
    brings one sample, which the second call finds in the tail. */
module SecondCall {
  import opened Basics
  import opened Polynomial
  import opened MessageBits
  import opened Checksum
  import opened ModeSFields
  import opened ModeS
  import opened ModeSDecode
  import opened AddressSafety
  import opened IqStream
  import opened Slicer
  import opened Demodulator
  import opened ReadsbStream

  // ------------------------------------------------------------------ the receiver

  // What readsb_bridge_init sets.
  const BRIDGE: Config := Config(true, 2)
  const PREAMBLE_THRESHOLD_DEFAULT: int := 58
  const LIMITS: Limits := Limits(false, 0, 0, 0)

  // The formats that are understood, and those that are one damaged bit away from 17.
  const FORMATS: Formats := Formats({16, 17, 18, 20, 21, 1, 19, 25}, {0, 4, 5, 11})

  // The score of a sliced message, which may be shorter than the buffer it is in.
  ghost function SlicedScore(known: set<bv32>, msg: seq<bv8>): int {
    if |msg| == LONG_MSG_BYTES then Score(BRIDGE, known, msg, 112)
    else if |msg| == SHORT_MSG_BYTES then Score(BRIDGE, known, msg + [0, 0, 0, 0, 0, 0, 0], 56)
    else -2
  }

  /** A receiver that scores and decodes as mode_s.c does while these addresses are known. */
  ghost function ModeSReceiver(known: set<bv32>): Receiver {
    Receiver(_ => msg => SlicedScore(known, msg),
             (_, msg) => |msg| == LONG_MSG_BYTES && WouldAccept(BRIDGE, known, msg))
  }

  // -------------------------------------------------------------------- the samples

  const SAMPLES: nat := 400

  // A preamble at sample 10, one noisy sample within it, and one data bit.
  predicate Pulse(sample: int) {
    sample == 11 || sample == 15 || sample == 21 || sample == 22 || sample == 162
  }

  function Stream(): seq<bv8> {
    seq(2 * SAMPLES, i requires 0 <= i < 2 * SAMPLES => if i % 2 == 0 && Pulse(i / 2) then 128 else 127)
  }

  lemma Levels()
    ensures ReadsbLevel(127, 127) == 0 && ReadsbLevel(128, 127) == 364
  {
    hide LevelAt;
    LevelTurns(0, 0);
    LevelTurns(1, 0);
  }

  // The padded block that the second call is given.
  predicate Heard(m: seq<int>) {
    |m| == SAMPLES + MAG_PADDING && forall k :: 0 <= k < |m| ==> m[k] == if Pulse(k) then 364 else 0
  }

  lemma SampleHeard(k: nat)
    requires k < SAMPLES
    ensures ReadsbLevel(Stream()[2 * k], Stream()[2 * k + 1]) == if Pulse(k) then 364 else 0
  {
    hide ReadsbLevel;
    Levels();
    assert Stream()[2 * k] == if Pulse(k) then 128 else 127;
    assert Stream()[2 * k + 1] == 127;
  }

  lemma SamplesHeard()
    ensures |Pairing(ReadsbLevel, Stream())| == SAMPLES && Heard(Padded(Pairing(ReadsbLevel, Stream()), 0))
    ensures Pairing(ReadsbLevel, []) == [] && Pairing(ReadsbLevel, Stream()[..2]) == [0]
  {
    hide ReadsbLevel, Stream, Pulse;
    var samples := Pairing(ReadsbLevel, Stream());
    StreamLength();
    forall k: nat | k < SAMPLES
      ensures samples[k] == if Pulse(k) then 364 else 0
    {
      SampleHeard(k);
    }
    NoOtherPulse();
  }

  lemma StreamLength()
    ensures |Stream()| == 2 * SAMPLES
  {
  }

  lemma NoOtherPulse()
    ensures !Pulse(0) && forall k :: k >= SAMPLES ==> !Pulse(k)
  {
  }

  lemma OnlyEarlyIsLoud(m: seq<int>)
    requires Heard(m)
    ensures LoudPhases(m, 10, PREAMBLE_THRESHOLD_DEFAULT) == [4, 5]
    ensures PreCheck(m, 10) && forall p :: 0 <= p < 10 ==> !PreCheck(m, p)
  {
  }

  lemma PaddingBehind(samples: seq<int>)
    requires |samples| == SAMPLES && PreCheck(Padded(samples, 0), 10)
    ensures PreCheck(samples, 10)
  {
  }

  // One sample and the padding.
  lemma NothingYet(m0: seq<int>)
    requires m0 == Padded([0], 0)
    ensures |m0| == MAG_PADDING + 1 && !PreCheck(m0, 0)
  {
  }

  // -------------------------------------------------------------------- the message

  // Of the 56 bits only the last is set, in both phases.
  lemma LastBit(m: seq<int>, phase: nat, k: nat)
    requires Heard(m) && (phase == 4 || phase == 5) && k < 56
    ensures SliceAt(m, DataStart(10, phase) + FIFTHS_PER_BIT * k) <==> k == 55
  {
    var p := (DataStart(10, phase) + FIFTHS_PER_BIT * k) / 5;
    assert k < 54 ==> p + 3 < 162 && p > 22;
  }

  lemma BitsSliced(m: seq<int>, phase: nat)
    requires Heard(m) && (phase == 4 || phase == 5)
    ensures BitsOf(Sliced(m, DataStart(10, phase), 7)) == Polynomial.OneBit(56, 55)
  {
    hide SliceAt, BitsOf, ByteAt;
    SlicedHoldsBits(m, DataStart(10, phase), 7);
    forall k | 0 <= k < 56
      ensures SlicedFrom(m, DataStart(10, phase), 56)[k] <==> k == 55
    {
      LastBit(m, phase, k);
    }
  }

  lemma NoBitSet(b: bv8)
    requires forall j :: 0 <= j < 8 ==> !TopBit(b, j)
    ensures b == 0
  {
    assert !TopBit(b, 0) && !TopBit(b, 1) && !TopBit(b, 2) && !TopBit(b, 3);
    assert !TopBit(b, 4) && !TopBit(b, 5) && !TopBit(b, 6) && !TopBit(b, 7);
    TopBitsClear(b);
  }

  lemma TopBitsClear(b: bv8)
    requires b & 0x80 == 0 && b & 0x40 == 0 && b & 0x20 == 0 && b & 0x10 == 0
    requires b & 0x08 == 0 && b & 0x04 == 0 && b & 0x02 == 0 && b & 0x01 == 0
    ensures b == 0
  {
  }

  // A surveillance reply whose parity field is overlaid with address 1.
  ghost predicate IsReply(msg: seq<bv8>) {
    |msg| == SHORT_MSG_BYTES && BitsOf(msg) == Polynomial.OneBit(56, 55)
  }

  lemma ReplyOfOne(msg: seq<bv8>)
    requires IsReply(msg)
    ensures msg[0] == 0 && msg[6] != 0 && Syndrome(msg) == 1
  {
    hide TopBit;
    forall j | 0 <= j < 8
      ensures !TopBit(msg[0], j)
    {
      assert BitsOf(msg)[j] == TopBit(msg[0], j);
    }
    NoBitSet(msg[0]);
    assert BitsOf(msg)[55] == TopBit(msg[6], 7);
    TopBitOfZero(7);
    RemainderOneBit(56, 55);
  }

  lemma ReplySliced(m: seq<int>, phase: nat)
    requires Heard(m) && (phase == 4 || phase == 5)
    ensures IsReply(PhaseMessage(m, 10, phase, FORMATS))
  {
    hide ByteAt, BitsOf, Syndrome;
    var msg := Sliced(m, DataStart(10, phase), 7);
    BitsSliced(m, phase);
    ReplyOfOne(msg);
    assert ByteAt(m, DataStart(10, phase)) == msg[0];
  }

  lemma FormatOfReply(msg: Message)
    requires IsReply(msg[..SHORT_MSG_BYTES])
    ensures FormatOf(msg) == 0 && !AllZeros(msg) && ChecksumAs(msg, 0) == 1
  {
    hide Syndrome, BitsOf;
    ReplyOfOne(msg[..SHORT_MSG_BYTES]);
    assert msg[..SHORT_MSG_BYTES][0] == msg[0] && msg[..SHORT_MSG_BYTES][6] == msg[6];
  }

  lemma ReplyScores(known: set<bv32>, msg: seq<bv8>)
    requires 1 in known && IsReply(msg)
    ensures SlicedScore(known, msg) == 1000
  {
    hide BitsOf, AllZeros, ChecksumAs, FormatField, Explanation;
    var buffer: Message := msg + [0, 0, 0, 0, 0, 0, 0];
    assert buffer[..SHORT_MSG_BYTES] == msg;
    FormatOfReply(buffer);
  }

  lemma ReplyDecodes(known: set<bv32>, msg: Message)
    requires 1 in known && IsReply(msg[..SHORT_MSG_BYTES])
    ensures WouldAccept(BRIDGE, known, msg)
  {
    hide IsReply, AllZeros, ChecksumAs, FormatField, Explanation;
    FormatOfReply(msg);
  }

  // --------------------------------------------------------------------- the calls

  // An accepted message that begins at sample 10, and is said to begin one sample later.
  predicate OneSampleLate(a: Attempt) {
    a.pos == 10 && a.accepted && a.timestamp == StreamTime(10, a.phase) + TICKS_PER_SAMPLE
  }

  // Both phases give the same reply, so the best message is one of the two.
  lemma ReplyIsBest(known: set<bv32>, m: seq<int>, k: nat, a: Attempt)
    requires 1 in known && Heard(m) && a.pos == 10
    requires Honest(ModeSReceiver(known), m, PREAMBLE_THRESHOLD_DEFAULT, FORMATS, TICKS_PER_SAMPLE, k, a)
    ensures a.score >= 1000 && (a.phase == 4 || a.phase == 5)
    ensures PhaseMessage(m, 10, a.phase, FORMATS) <= a.msg && |a.msg| == LONG_MSG_BYTES
  {
    hide LoudPhases, PhaseMessage, PreCheck, SlicedScore, WouldAccept, BitsOf, Heard;
    OnlyEarlyIsLoud(m);
    ReplySliced(m, 4);
    ReplyScores(known, PhaseMessage(m, 10, 4, FORMATS));
    assert PhaseScore(ModeSReceiver(known).score(k), m, 10, 4, FORMATS) == 1000;
    assert LoudPhases(m, 10, PREAMBLE_THRESHOLD_DEFAULT)[0] == 4;
  }

  lemma AttemptIsLate(known: set<bv32>, m: seq<int>, k: nat, a: Attempt)
    requires 1 in known && Heard(m) && a.pos == 10
    requires Honest(ModeSReceiver(known), m, PREAMBLE_THRESHOLD_DEFAULT, FORMATS, TICKS_PER_SAMPLE, k, a)
    ensures OneSampleLate(a)
  {
    hide LoudPhases, PhaseMessage, PreCheck, SlicedScore, WouldAccept, BitsOf, Heard, FirstAt, AllAtMost;
    ReplyIsBest(known, m, k, a);
    ReplySliced(m, a.phase);
    assert a.msg[..SHORT_MSG_BYTES] == PhaseMessage(m, 10, a.phase, FORMATS);
    ReplyDecodes(known, a.msg);
  }

  lemma NothingEarlier(receiver: Receiver, m0: seq<int>, earlier: seq<Attempt>)
    requires m0 == Padded([0], 0)
    requires |m0| >= MAG_PADDING && AllHonest(receiver, m0, PREAMBLE_THRESHOLD_DEFAULT, FORMATS, 0, earlier)
    ensures earlier == []
  {
    hide LoudPhases, FirstAt, AllAtMost, PreCheck;
    if earlier != [] {
      assert PreCheck(m0, earlier[0].pos);
      NothingYet(m0);
    }
  }

  // The attempts of the second call come to sample 10.
  lemma FoundAgain(known: set<bv32>, attempts: seq<Attempt>, m: seq<int>)
    requires 1 in known && Heard(m) && Accounted(attempts, 10)
    requires AllHonest(ModeSReceiver(known), m, PREAMBLE_THRESHOLD_DEFAULT, FORMATS, TICKS_PER_SAMPLE, attempts)
    ensures exists k :: 0 <= k < |attempts| && OneSampleLate(attempts[k])
  {
    hide LoudPhases, PhaseMessage, FirstAt, AllAtMost, Skip, ModeSReceiver, OneSampleLate, PreCheck;
    var k :| 0 <= k < |attempts| && (attempts[k].pos == 10 ||
      (attempts[k].accepted && |attempts[k].msg| > 0 &&
          attempts[k].pos < 10 <= attempts[k].pos + Skip(attempts[k].msg)));
    assert PreCheck(m, attempts[k].pos);
    OnlyEarlyIsLoud(m);
    AttemptIsLate(known, m, k, attempts[k]);
  }

  // What is known of the two calls.
  lemma CallsPrepared()
    ensures var stream := Stream();
      && 2 <= |stream| && [] + stream[..2] == stream[..2] && stream[..2] + stream[2..] == stream
      && Pairing(ReadsbLevel, []) == [] && Pairing(ReadsbLevel, stream[..2]) == [0]
      && PreCheck(Pairing(ReadsbLevel, stream), 10) && |Pairing(ReadsbLevel, stream)| == SAMPLES
      && Heard(Padded(Pairing(ReadsbLevel, stream), 0))
  {
    hide PreCheck, LoudPhases, Pairing, ReadsbLevel, Heard, Stream;
    StreamLength();
    SamplesHeard();
    OnlyEarlyIsLoud(Padded(Pairing(ReadsbLevel, Stream()), 0));
    PaddingBehind(Pairing(ReadsbLevel, Stream()));
  }

  lemma NothingMoved(attempts: seq<Attempt>)
    ensures Moved([], 0) == [] && [] + Moved(attempts, 0) == attempts
  {
  }

  /** A reply of an aircraft that is known is accepted, and reported five ticks after its
      place in the stream. */
  method LateMessage(receiver: Receiver, ghost known: set<bv32>) returns (attempts: seq<Attempt>)
    requires 1 in known && receiver == ModeSReceiver(known)
    ensures exists k :: 0 <= k < |attempts| && OneSampleLate(attempts[k])
  {
    hide PreCheck, LoudPhases, Pairing, PhaseMessage, FirstAt, Honest, Accounted, ModeSReceiver, ReadsbLevel, Heard,
      OneSampleLate, Stream, Moved, AllHonest, Late, NoCandidates;
    var stream := Stream();
    var decoder := new ReadsbDecoder(ReadsbLevel);
    CallsPrepared();
    var earlier;
    ghost var first, second;
    earlier, first := decoder.ProcessReadsbDemodulator(stream[..2], PREAMBLE_THRESHOLD_DEFAULT, receiver, FORMATS,
        LIMITS);
    NothingEarlier(receiver, Padded([0], 0), earlier);
    NothingMoved([]);
    assert first == 0 && decoder.log == [];
    attempts, second := decoder.ProcessReadsbDemodulator(stream[2..], PREAMBLE_THRESHOLD_DEFAULT, receiver, FORMATS,
        LIMITS);
    NothingMoved(attempts);
    assert second == 0 && decoder.log == attempts;
    FoundAgain(known, attempts, Padded(Pairing(ReadsbLevel, stream), 0));
  }
}
