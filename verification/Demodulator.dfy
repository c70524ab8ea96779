/** Scoring and scanning in demod_2400.c: every position that passes the pre-check is tried
    in the phases whose preamble is loud enough, and the best message is decoded. */
module Demodulator {
  import opened MessageBits
  import opened Slicer

  // -------------------------------------------------------------------- messages

  // Where the data bits of a message with its preamble at pa begin, in fifths of a sample.
  function DataStart(pa: nat, tryPhase: nat): nat {
    5 * (pa + 19) + tryPhase
  }

  // There is enough behind pa for a long message in any phase.
  predicate Readable(m: seq<int>, pa: nat) {
    pa + 300 <= |m|
  }

  function Sliced(m: seq<int>, fifths: nat, n: nat): (msg: seq<bv8>)
    requires n > 0 ==> (fifths + 96 * (n - 1) + 84) / 5 + 3 < |m|
    ensures |msg| == n
  {
    seq(n, i requires 0 <= i < n => ByteAt(m, fifths + 96 * i))
  }

  /** The bytes cut out one by one hold the bits that follow each other every 12 fifths. */
  lemma SlicedHoldsBits(m: seq<int>, fifths: nat, n: nat)
    requires n > 0 && (fifths + 96 * (n - 1) + 84) / 5 + 3 < |m|
    ensures (fifths + FIFTHS_PER_BIT * (8 * n - 1)) / 5 + 3 < |m|
    ensures BitsOf(Sliced(m, fifths, n)) == SlicedFrom(m, fifths, 8 * n)
  {
    hide ByteAt, SliceAt, TopBit;
    var msg := Sliced(m, fifths, n);
    forall k | 0 <= k < 8 * n
      ensures BitsOf(msg)[k] == SlicedFrom(m, fifths, 8 * n)[k]
    {
      var i, j := k / 8, k % 8;
      ByteHoldsBits(m, fifths + 96 * i);
      assert ByteBits(msg[i])[j] == TopBit(msg[i], j);
      assert SlicedFrom(m, fifths + 96 * i, 8)[j] == SliceAt(m, fifths + 96 * i + 12 * j);
    }
  }

  // The formats that are worth slicing, by message length.
  datatype Formats = Formats(long: set<bv8>, short: set<bv8>)

  // How many bytes score_phase slices; none when the format is not known.
  function ByteLen(formats: Formats, first: bv8): nat {
    if first >> 3 in formats.long then MODES_LONG_MSG_BYTES
    else if first >> 3 in formats.short then MODES_SHORT_MSG_BYTES
    else 0
  }

  // The message that a phase gives.
  function PhaseMessage(m: seq<int>, pa: nat, tryPhase: nat, formats: Formats): seq<bv8>
    requires Readable(m, pa) && tryPhase < 10
  {
    Sliced(m, DataStart(pa, tryPhase), ByteLen(formats, ByteAt(m, DataStart(pa, tryPhase))))
  }

  type Scorer = seq<bv8> -> int

  function PhaseScore(score: Scorer, m: seq<int>, pa: nat, tryPhase: nat, formats: Formats): int
    requires Readable(m, pa) && tryPhase < 10
  {
    if PhaseMessage(m, pa, tryPhase, formats) == [] then -2 else score(PhaseMessage(m, pa, tryPhase, formats))
  }

  // -------------------------------------------------------------- the best candidate

  // The i-th phase tried has a score that none before it reached.
  ghost predicate FirstAt(score: Scorer, m: seq<int>, pa: nat, formats: Formats, tried: seq<nat>, i: nat, phase: nat,
                          best: int)
    requires Readable(m, pa) && i < |tried|
  {
    && tried[i] == phase < 10 && PhaseScore(score, m, pa, tried[i], formats) == best
    && forall j :: 0 <= j < i ==> tried[j] < 10 && PhaseScore(score, m, pa, tried[j], formats) < best
  }

  ghost predicate AllAtMost(score: Scorer, m: seq<int>, pa: nat, formats: Formats, tried: seq<nat>, best: int)
    requires Readable(m, pa)
  {
    forall i :: 0 <= i < |tried| ==> tried[i] < 10 && PhaseScore(score, m, pa, tried[i], formats) <= best
  }

  // The locals that demodulate2400 hands to score_phase.
  class Candidates {
    const msg1: array<bv8>
    const msg2: array<bv8>
    var msg: array<bv8>
    var bestmsg: array?<bv8>
    var bestscore: int
    var bestphase: nat

    predicate Valid()
      reads this
    {
      && msg1.Length == msg2.Length == MODES_LONG_MSG_BYTES && msg1 != msg2
      && (msg == msg1 || msg == msg2) && (bestmsg == null || bestmsg == msg1 || bestmsg == msg2)
      && bestmsg != msg
    }

    constructor ()
      ensures Valid() && fresh(msg1) && fresh(msg2)
    {
      msg1 := new bv8[MODES_LONG_MSG_BYTES](_ => 0);
      msg2 := new bv8[MODES_LONG_MSG_BYTES](_ => 0);
      msg, bestmsg, bestscore, bestphase := msg1, null, -42, 0;
      new;
    }

    // The buffer holds the message of the best phase.
    ghost predicate Holds(m: seq<int>, pa: nat, formats: Formats)
      reads this, bestmsg
      requires Readable(m, pa)
    {
      && bestmsg != null && bestmsg.Length == MODES_LONG_MSG_BYTES && bestphase < 10
      && var best := PhaseMessage(m, pa, bestphase, formats);
        0 < |best| <= bestmsg.Length && bestmsg[..|best|] == best
    }

    /** After some phases have been tried, the best score is the highest of them, and the best
        message is that of the first phase that reached it. */
    ghost predicate Best(score: Scorer, m: seq<int>, pa: nat, formats: Formats, tried: seq<nat>)
      reads this, bestmsg
      requires Readable(m, pa)
    {
      && AllAtMost(score, m, pa, formats, tried, bestscore)
      && (bestscore >= 0 ==> Holds(m, pa, formats) && FirstBest(score, m, pa, formats, tried))
    }

    ghost predicate FirstBest(score: Scorer, m: seq<int>, pa: nat, formats: Formats, tried: seq<nat>)
      reads this
      requires Readable(m, pa)
    {
      exists i :: 0 <= i < |tried| && FirstAt(score, m, pa, formats, tried, i, bestphase, bestscore)
    }

    lemma StillBest(score: Scorer, m: seq<int>, pa: nat, formats: Formats, tried: seq<nat>, tryPhase: nat)
      requires Readable(m, pa) && tryPhase < 10 && Best(score, m, pa, formats, tried)
      requires PhaseScore(score, m, pa, tryPhase, formats) <= bestscore
      ensures Best(score, m, pa, formats, tried + [tryPhase])
    {
      hide PhaseScore, Holds;
      if bestscore >= 0 {
        var i :| 0 <= i < |tried| && FirstAt(score, m, pa, formats, tried, i, bestphase, bestscore);
        assert FirstAt(score, m, pa, formats, tried + [tryPhase], i, bestphase, bestscore);
      }
    }

    lemma NowBest(score: Scorer, m: seq<int>, pa: nat, formats: Formats, tried: seq<nat>, tryPhase: nat, before: int)
      requires Readable(m, pa) && tryPhase < 10
      requires AllAtMost(score, m, pa, formats, tried, before)
      requires PhaseScore(score, m, pa, tryPhase, formats) == bestscore > before
      requires bestscore >= 0 ==> bestphase == tryPhase && Holds(m, pa, formats)
      ensures Best(score, m, pa, formats, tried + [tryPhase])
    {
      hide PhaseScore, Holds;
      if bestscore >= 0 {
        assert FirstAt(score, m, pa, formats, tried + [tryPhase], |tried|, bestphase, bestscore);
      }
    }

    /** score_phase. The message under test never overwrites the best one, which is in the
        other buffer. */
    method ScorePhase(tryPhase: nat, m: seq<int>, pa: nat, score: Scorer, formats: Formats, ghost tried: seq<nat>)
      requires Valid() && Readable(m, pa) && 4 <= tryPhase < 10 && Best(score, m, pa, formats, tried)
      modifies this, msg1, msg2
      ensures Valid() && Best(score, m, pa, formats, tried + [tryPhase])
      ensures bestscore >= old(bestscore)
    {
      hide ByteAt, FirstBest, FirstAt, AllAtMost, PhaseMessage;
      ghost var before := bestscore;
      assert Best(score, m, pa, formats, tried);
      var bytelen := SliceMessage(m, msg, pa, tryPhase, formats);
      if bytelen == 0 {
        if -2 > bestscore {
          bestscore := -2;
          NowBest(score, m, pa, formats, tried, tryPhase, before);
        } else {
          StillBest(score, m, pa, formats, tried, tryPhase);
        }
        return;
      }
      var s := score(msg[..bytelen]);
      if s > bestscore {
        bestmsg := msg;
        bestscore := s;
        bestphase := tryPhase;
        msg := if msg == msg1 then msg2 else msg1;
        NowBest(score, m, pa, formats, tried, tryPhase, before);
      } else {
        StillBest(score, m, pa, formats, tried, tryPhase);
      }
    }

    /** One position of demodulate2400: the phases whose preamble is loud enough are tried. */
    method TryPosition(m: seq<int>, pa: nat, threshold: int, score: Scorer, formats: Formats)
      requires Valid() && Readable(m, pa)
      modifies this, msg1, msg2
      ensures Valid() && Best(score, m, pa, formats, LoudPhases(m, pa, threshold))
      ensures LoudPhases(m, pa, threshold) == [] ==> bestscore == -42
    {
      hide Best;
      var baseNoise := m[pa + 5] + m[pa + 8] + m[pa + 16] + m[pa + 17] + m[pa + 18];
      var refLevel := baseNoise * threshold / 32;
      bestscore := -42;
      NothingTried(score, m, pa, formats);
      var diff23 := m[pa + 2] - m[pa + 3];
      var sum14 := m[pa + 1] + m[pa + 4];
      var diff1011 := m[pa + 10] - m[pa + 11];
      var common3456 := sum14 - diff23 + m[pa + 9] + m[pa + 12];
      ghost var tried: seq<nat> := [];
      if common3456 - diff1011 >= refLevel {
        ScorePhase(4, m, pa, score, formats, tried);
        ScorePhase(5, m, pa, score, formats, tried + [4]);
        tried := tried + [4] + [5];
      }
      if common3456 + diff1011 >= refLevel {
        ScorePhase(6, m, pa, score, formats, tried);
        ScorePhase(7, m, pa, score, formats, tried + [6]);
        tried := tried + [6] + [7];
      }
      if sum14 + 2 * diff23 + diff1011 + m[pa + 12] >= refLevel {
        ScorePhase(8, m, pa, score, formats, tried);
        tried := tried + [8];
      }
      assert tried == LoudPhases(m, pa, threshold);
    }

    lemma NothingTried(score: Scorer, m: seq<int>, pa: nat, formats: Formats)
      requires Readable(m, pa) && bestscore == -42
      ensures Best(score, m, pa, formats, [])
    {
    }
  }

  // The sum of four preamble peaks less the quiet samples between them, for three groups of
  // phases, against the noise around the preamble.
  function LoudPhases(m: seq<int>, pa: nat, threshold: int): seq<nat>
    requires Readable(m, pa)
  {
    var refLevel := (m[pa + 5] + m[pa + 8] + m[pa + 16] + m[pa + 17] + m[pa + 18]) * threshold / 32;
    var early := m[pa + 1] + m[pa + 3] + m[pa + 4] + m[pa + 9] + m[pa + 11] + m[pa + 12] - m[pa + 2] - m[pa + 10];
    var middle := m[pa + 1] + m[pa + 3] + m[pa + 4] + m[pa + 9] + m[pa + 10] + m[pa + 12] - m[pa + 2] - m[pa + 11];
    var late := m[pa + 1] + 2 * m[pa + 2] + m[pa + 4] + m[pa + 10] + m[pa + 12] - 2 * m[pa + 3] - m[pa + 11];
    (if early >= refLevel then [4, 5] else []) + (if middle >= refLevel then [6, 7] else []) +
    (if late >= refLevel then [8] else [])
  }

  // The first part of score_phase: the message of a phase, if its format is worth it.
  method SliceMessage(m: seq<int>, msg: array<bv8>, pa: nat, tryPhase: nat, formats: Formats) returns (bytelen: nat)
    requires Readable(m, pa) && tryPhase < 10 && msg.Length == MODES_LONG_MSG_BYTES
    modifies msg
    ensures bytelen <= msg.Length && msg[..bytelen] == PhaseMessage(m, pa, tryPhase, formats)
  {
    hide ByteAt;
    var ptr, phase := pa + 19 + tryPhase / 5, tryPhase % 5;
    ghost var start := DataStart(pa, tryPhase);
    assert 5 * ptr + phase == start;
    var first: bv8;
    first, ptr, phase := SliceByte(m, ptr, phase);
    msg[0] := first;
    var df := first >> 3;
    if df in formats.long {
      bytelen := MODES_LONG_MSG_BYTES;
    } else if df in formats.short {
      bytelen := MODES_SHORT_MSG_BYTES;
    } else {
      return 0;
    }
    SliceRest(m, msg, ptr, phase, bytelen, start);
  }

  // The loop of score_phase over the bytes after the first.
  method SliceRest(m: seq<int>, msg: array<bv8>, at: nat, from: nat, bytelen: nat, ghost start: nat)
    requires from < 5 && 5 * at + from == start + 96 && 0 < bytelen <= msg.Length
    requires (start + 96 * (bytelen - 1) + 84) / 5 + 4 < |m|
    requires msg[0] == ByteAt(m, start)
    modifies msg
    ensures msg[..bytelen] == Sliced(m, start, bytelen)
  {
    hide ByteAt;
    var ptr, phase := at, from;
    for i := 1 to bytelen
      invariant phase < 5 && 5 * ptr + phase == start + 96 * i
      invariant forall k :: 0 <= k < i ==> msg[k] == ByteAt(m, start + 96 * k)
    {
      var b: bv8;
      b, ptr, phase := SliceByte(m, ptr, phase);
      msg[i] := b;
    }
  }

  // -------------------------------------------------------------------- the scan

  predicate PreCheck(m: seq<int>, pa: nat)
    requires pa + 15 < |m|
  {
    m[pa + 1] > m[pa + 7] && m[pa + 12] > m[pa + 14] && m[pa + 12] > m[pa + 15]
  }

  // A position that was tried, and what became of it.
  datatype Attempt = Attempt(pos: nat, score: int, phase: nat, msg: seq<bv8>, accepted: bool, timestamp: int)

  // How far the scan jumps behind an accepted message.
  function Skip(msg: seq<bv8>): nat
    requires |msg| > 0
  {
    (if msg[0] & 0x80 != 0 then 112 else 56) * 8 / 4
  }

  // What may change from one attempt to the next: the scores, and which messages decode.
  datatype Receiver = Receiver(score: nat -> Scorer, decodes: (nat, seq<bv8>) -> bool)

  /** An attempt reports the first best phase of those that were loud enough. */
  ghost predicate Honest(receiver: Receiver, m: seq<int>, threshold: int, formats: Formats, sampleTimestamp: int,
                         k: nat, a: Attempt) {
    && Readable(m, a.pos) && PreCheck(m, a.pos)
    && AllAtMost(receiver.score(k), m, a.pos, formats, LoudPhases(m, a.pos, threshold), a.score)
    && (a.score >= 0 ==>
          && |a.msg| == MODES_LONG_MSG_BYTES && a.phase < 10
          && (exists i :: 0 <= i < |LoudPhases(m, a.pos, threshold)| &&
                FirstAt(receiver.score(k), m, a.pos, formats, LoudPhases(m, a.pos, threshold), i, a.phase, a.score))
          && PhaseMessage(m, a.pos, a.phase, formats) <= a.msg
          && a.timestamp == sampleTimestamp + a.pos * 5 + (8 + 56) * 12 + a.phase)
    && (a.accepted <==> a.score >= 0 && receiver.decodes(k, a.msg))
  }

  ghost predicate Accounted(attempts: seq<Attempt>, p: nat) {
    exists k :: 0 <= k < |attempts| && (attempts[k].pos == p ||
      (attempts[k].accepted && |attempts[k].msg| > 0 && attempts[k].pos < p <= attempts[k].pos + Skip(attempts[k].msg)))
  }

  // How far a scan has come behind an attempt: two samples for every bit of an accepted message.
  function Reached(a: Attempt): nat {
    a.pos + if !a.accepted || |a.msg| == 0 then 1 else if a.msg[0] & 0x80 != 0 then 225 else 113
  }

  /** Attempts go forward, and none begins in the part of an accepted message that is jumped
      over. */
  ghost predicate Forward(attempts: seq<Attempt>) {
    forall k, l :: 0 <= k < l < |attempts| ==> Reached(attempts[k]) <= attempts[l].pos
  }

  lemma ForwardAppend(attempts: seq<Attempt>, a: Attempt)
    requires Forward(attempts) && (attempts != [] ==> Reached(attempts[|attempts| - 1]) <= a.pos)
    ensures Forward(attempts + [a])
  {
    hide Reached;
    forall k | 0 <= k < |attempts|
      ensures Reached(attempts[k]) <= a.pos
    {
      if k < |attempts| - 1 {
        ReachedBehind(attempts[|attempts| - 1]);
      }
    }
  }

  lemma ReachedBehind(a: Attempt)
    ensures a.pos < Reached(a)
    ensures a.accepted && |a.msg| > 0 ==> Reached(a) == a.pos + Skip(a.msg) + 1
    ensures !a.accepted ==> Reached(a) == a.pos + 1
  {
  }

  // The unrolled part of the scan: up to ten pre-checks in a row.
  method FindPreamble(m: seq<int>, from: nat) returns (pa: nat, found: bool)
    requires from + 9 + 15 < |m|
    ensures from <= pa <= from + 9
    ensures forall p :: from <= p < pa ==> !PreCheck(m, p)
    ensures found <==> PreCheck(m, pa)
    ensures !found ==> pa == from + 9
  {
    pa := from;
    while pa < from + 9 && !PreCheck(m, pa)
      invariant from <= pa <= from + 9
      invariant forall p :: from <= p < pa ==> !PreCheck(m, p)
    {
      pa := pa + 1;
    }
    found := PreCheck(m, pa);
  }

  // ------------------------------------------------------------------ signal levels

  // Half a short message.
  const STATS_WINDOW: nat := 56

  datatype Limits = Limits(autoGain: bool, loud: int, noiseLow: int, noiseHigh: int)
  datatype Gain = Gain(loudEvents: nat, noiseLowSamples: nat, noiseHighSamples: nat)

  function SumOf(m: seq<int>, from: nat, n: nat): int
    requires from + n <= |m|
  {
    if n == 0 then 0 else SumOf(m, from, n - 1) + m[from + n - 1]
  }

  function PowerOf(m: seq<int>, from: nat, n: nat): int
    requires from + n <= |m|
  {
    if n == 0 then 0 else PowerOf(m, from, n - 1) + m[from + n - 1] * m[from + n - 1]
  }

  // Windows that do not overlap and begin inside the block.
  ghost predicate Apart(windows: seq<nat>, mlen: nat) {
    && (forall k :: 0 <= k < |windows| ==> windows[k] < mlen)
    && (forall k :: 0 < k < |windows| ==> windows[k - 1] + STATS_WINDOW <= windows[k])
  }

  // How many windows sum to more than a limit.
  ghost function Above(m: seq<int>, windows: seq<nat>, limit: int): nat {
    if windows == [] then 0
    else
      var w := windows[|windows| - 1];
      Above(m, windows[..|windows| - 1], limit) +
      if w + STATS_WINDOW <= |m| && SumOf(m, w, STATS_WINDOW) > limit then 1 else 0
  }

  ghost function Below(m: seq<int>, windows: seq<nat>, limit: int): nat {
    if windows == [] then 0
    else
      var w := windows[|windows| - 1];
      Below(m, windows[..|windows| - 1], limit) +
      if w + STATS_WINDOW <= |m| && SumOf(m, w, STATS_WINDOW) < limit then 1 else 0
  }

  /** The counters say how many of the windows were loud, and how many samples were quiet. */
  ghost predicate Watched(m: seq<int>, limits: Limits, windows: seq<nat>, gain: Gain) {
    && gain.loudEvents == Above(m, windows, limits.loud)
    && gain.noiseLowSamples == STATS_WINDOW * Below(m, windows, limits.noiseLow)
    && gain.noiseHighSamples == STATS_WINDOW * Below(m, windows, limits.noiseHigh)
  }

  method WindowSum(m: seq<int>, pa: nat) returns (magSum: int)
    requires pa + STATS_WINDOW <= |m|
    ensures magSum == SumOf(m, pa, STATS_WINDOW)
  {
    magSum := 0;
    for i := 0 to STATS_WINDOW
      invariant magSum == SumOf(m, pa, i)
    {
      magSum := magSum + m[pa + i];
    }
  }

  lemma OneMoreWindow(m: seq<int>, windows: seq<nat>, pa: nat, limit: int)
    requires pa + STATS_WINDOW <= |m|
    ensures Above(m, windows + [pa], limit) ==
        Above(m, windows, limit) + if SumOf(m, pa, STATS_WINDOW) > limit then 1 else 0
    ensures Below(m, windows + [pa], limit) ==
        Below(m, windows, limit) + if SumOf(m, pa, STATS_WINDOW) < limit then 1 else 0
  {
    hide SumOf;
    assert (windows + [pa])[..|windows|] == windows;
  }

  // The window of the automatic gain that begins at a position.
  method Watch(m: seq<int>, pa: nat, mlen: nat, limits: Limits, gain0: Gain, ghost windows: seq<nat>)
      returns (gain: Gain)
    requires pa < mlen && pa + STATS_WINDOW <= |m| && Apart(windows, mlen) && Watched(m, limits, windows, gain0)
    requires windows != [] ==> windows[|windows| - 1] + STATS_WINDOW <= pa
    ensures Apart(windows + [pa], mlen) && Watched(m, limits, windows + [pa], gain)
  {
    hide Above, Below, SumOf;
    var magSum := WindowSum(m, pa);
    OneMoreWindow(m, windows, pa, limits.loud);
    OneMoreWindow(m, windows, pa, limits.noiseLow);
    OneMoreWindow(m, windows, pa, limits.noiseHigh);
    gain := Gain(gain0.loudEvents + (if magSum > limits.loud then 1 else 0),
                 gain0.noiseLowSamples + STATS_WINDOW * (if magSum < limits.noiseLow then 1 else 0),
                 gain0.noiseHighSamples + STATS_WINDOW * (if magSum < limits.noiseHigh then 1 else 0));
  }

  function SignalLength(msg: seq<bv8>): nat
    requires |msg| > 0
  {
    (if msg[0] & 0x80 != 0 then 112 else 56) * 12 / 5
  }

  // The power of an accepted message, in the 268 samples of a long one or the 134 of a short one.
  function AttemptPower(m: seq<int>, a: Attempt): int {
    if !a.accepted || |a.msg| == 0 || !Readable(m, a.pos) then 0
    else if a.msg[0] & 0x80 != 0 then PowerOf(m, a.pos + 19, 268)
    else PowerOf(m, a.pos + 19, 134)
  }

  // The power of the messages that were accepted.
  function AcceptedPower(m: seq<int>, attempts: seq<Attempt>): int {
    if attempts == [] then 0
    else
      var a := attempts[|attempts| - 1];
      AcceptedPower(m, attempts[..|attempts| - 1]) + AttemptPower(m, a)
  }

  method SignalPower(m: seq<int>, pa: nat, msg: seq<bv8>) returns (power: int)
    requires Readable(m, pa) && |msg| > 0
    ensures power == PowerOf(m, pa + 19, SignalLength(msg))
  {
    power := 0;
    for k := 0 to SignalLength(msg)
      invariant power == PowerOf(m, pa + 19, k)
    {
      var mag := m[pa + 19 + k];
      power := power + mag * mag;
    }
  }

  lemma PowerAppend(m: seq<int>, attempts: seq<Attempt>, a: Attempt)
    ensures AcceptedPower(m, attempts + [a]) == AcceptedPower(m, attempts) + AttemptPower(m, a)
  {
    hide PowerOf;
    assert (attempts + [a])[..|attempts|] == attempts;
  }

  /** demodulate2400. Every position of the block that passes the pre-check is tried, unless
      it lies in the part of an accepted message that is jumped over; the levels are those of
      windows that do not overlap, and of the accepted messages; and nothing is read behind
      the padding of the block. */
  method Demodulate2400(m: seq<int>, mlen: nat, sampleTimestamp: int, threshold: int, receiver: Receiver,
                        formats: Formats, limits: Limits)
      returns (attempts: seq<Attempt>, power: int, gain: Gain, ghost windows: seq<nat>)
    requires |m| == mlen + MAG_PADDING
    ensures forall k :: 0 <= k < |attempts| ==>
              attempts[k].pos < mlen && Honest(receiver, m, threshold, formats, sampleTimestamp, k, attempts[k])
    ensures forall p: nat :: p < mlen && PreCheck(m, p) ==> Accounted(attempts, p)
    ensures Forward(attempts)
    ensures power == AcceptedPower(m, attempts)
    ensures Apart(windows, mlen) && Watched(m, limits, windows, gain) &&
        (windows != [] <==> limits.autoGain && mlen > 0)
  {
    hide Honest, PreCheck, LoudPhases, Apart, Watched, AcceptedPower, PowerOf, Forward, Reached,
      Accounted;
    var candidates := new Candidates();
    attempts, power, gain, windows := [], 0, Gain(0, 0, 0), [];
    NothingMeasured(m, mlen, limits);
    var pa, statsProgress: nat := 0, 0;
    while pa < mlen
      invariant candidates.Valid() && fresh(candidates) && fresh(candidates.msg1) && fresh(candidates.msg2)
      invariant Scanned(receiver, m, mlen, threshold, formats, sampleTimestamp, attempts, power, pa)
      invariant Apart(windows, mlen) && Watched(m, limits, windows, gain)
      invariant if windows == [] then statsProgress == 0 else windows[|windows| - 1] + STATS_WINDOW == statsProgress
      invariant (windows != [] <==> limits.autoGain && pa > 0) && (pa > 0 ==> mlen > 0)
      decreases mlen - pa
    {
      if limits.autoGain && pa >= statsProgress {
        gain := Watch(m, pa, mlen, limits, gain, windows);
        windows := windows + [pa];
        statsProgress := pa + STATS_WINDOW;
      }
      ghost var from := pa;
      var found;
      pa, found := FindPreamble(m, pa);
      ScannedOn(receiver, m, mlen, threshold, formats, sampleTimestamp, attempts, power, from, pa, found);
      if found && pa < mlen {
        attempts, power, pa := TryNext(candidates, m, mlen, pa, sampleTimestamp, threshold, receiver, formats, attempts,
            power);
      }
      pa := pa + 1;
    }
    ScannedAll(receiver, m, mlen, threshold, formats, sampleTimestamp, attempts, power, pa);
  }

  // What has been established when the scan stands at pa.
  ghost predicate Scanned(receiver: Receiver, m: seq<int>, mlen: nat, threshold: int, formats: Formats,
                          sampleTimestamp: int, attempts: seq<Attempt>, power: int, pa: nat)
    requires |m| == mlen + MAG_PADDING
  {
    && (forall k :: 0 <= k < |attempts| ==>
         attempts[k].pos < mlen && Honest(receiver, m, threshold, formats, sampleTimestamp, k, attempts[k]))
    && (forall p: nat :: p < pa && p < mlen && PreCheck(m, p) ==> Accounted(attempts, p))
    && power == AcceptedPower(m, attempts)
    && Forward(attempts) && (attempts != [] ==> Reached(attempts[|attempts| - 1]) <= pa)
  }

  lemma ScannedAll(receiver: Receiver, m: seq<int>, mlen: nat, threshold: int, formats: Formats, sampleTimestamp: int,
                   attempts: seq<Attempt>, power: int, pa: nat)
    requires |m| == mlen + MAG_PADDING && pa >= mlen
    requires Scanned(receiver, m, mlen, threshold, formats, sampleTimestamp, attempts, power, pa)
    ensures forall k :: 0 <= k < |attempts| ==>
              attempts[k].pos < mlen && Honest(receiver, m, threshold, formats, sampleTimestamp, k, attempts[k])
    ensures forall p: nat :: p < mlen && PreCheck(m, p) ==> Accounted(attempts, p)
    ensures power == AcceptedPower(m, attempts) && Forward(attempts)
  {
    hide Honest, PreCheck, Accounted;
  }

  // Up to where the pre-check looked nothing has been passed over.
  lemma ScannedOn(receiver: Receiver, m: seq<int>, mlen: nat, threshold: int, formats: Formats, sampleTimestamp: int,
                  attempts: seq<Attempt>, power: int, from: nat, pa: nat, found: bool)
    requires |m| == mlen + MAG_PADDING && from <= pa && pa + 15 < |m|
    requires Scanned(receiver, m, mlen, threshold, formats, sampleTimestamp, attempts, power, from)
    requires (forall p :: from <= p < pa ==> !PreCheck(m, p)) && (found <==> PreCheck(m, pa))
    ensures Scanned(receiver, m, mlen, threshold, formats, sampleTimestamp, attempts, power, pa)
    ensures !(found && pa < mlen) ==>
      Scanned(receiver, m, mlen, threshold, formats, sampleTimestamp, attempts, power, pa + 1)
  {
    hide Honest, PreCheck, Accounted, Forward, Reached;
  }

  // A position that passes the pre-check is tried, and an accepted message jumped over.
  method TryNext(candidates: Candidates, m: seq<int>, mlen: nat, pa: nat, sampleTimestamp: int, threshold: int,
                 receiver: Receiver, formats: Formats, attempts0: seq<Attempt>, power0: int)
      returns (attempts: seq<Attempt>, power: int, at: nat)
    requires candidates.Valid() && |m| == mlen + MAG_PADDING && pa < mlen && PreCheck(m, pa)
    requires Scanned(receiver, m, mlen, threshold, formats, sampleTimestamp, attempts0, power0, pa)
    modifies candidates, candidates.msg1, candidates.msg2
    ensures candidates.Valid() && at >= pa
    ensures Scanned(receiver, m, mlen, threshold, formats, sampleTimestamp, attempts, power, at + 1)
  {
    hide Honest, PreCheck, LoudPhases, AcceptedPower, PowerOf, Forward, Reached, Skip, Accounted;
    var attempt := TryAt(candidates, m, pa, sampleTimestamp, threshold, receiver, formats, |attempts0|);
    attempts, power, at := attempts0 + [attempt], power0, pa;
    MoreAccounted(attempts0, attempt);
    PowerAppend(m, attempts0, attempt);
    ForwardAppend(attempts0, attempt);
    ReachedBehind(attempt);
    if attempt.accepted {
      var signal := SignalPower(m, pa, attempt.msg);
      power := power + signal;
      at := pa + Skip(attempt.msg);
    }
  }

  lemma NothingMeasured(m: seq<int>, mlen: nat, limits: Limits)
    ensures AcceptedPower(m, []) == 0 && Forward([]) && Apart([], mlen) && Watched(m, limits, [], Gain(0, 0, 0))
  {
    assert Above(m, [], limits.loud) == 0;
    assert Below(m, [], limits.noiseLow) == 0 && Below(m, [], limits.noiseHigh) == 0;
  }

  lemma MoreAccounted(attempts: seq<Attempt>, attempt: Attempt)
    ensures forall p: nat :: Accounted(attempts, p) ==> Accounted(attempts + [attempt], p)
    ensures Accounted(attempts + [attempt], attempt.pos)
    ensures attempt.accepted && |attempt.msg| > 0 ==>
      forall p: nat :: attempt.pos < p <= attempt.pos + Skip(attempt.msg) ==>
              Accounted(attempts + [attempt], p)
  {
    hide Skip;
    var longer := attempts + [attempt];
    assert longer[|attempts|] == attempt;
    forall p: nat | Accounted(attempts, p)
      ensures Accounted(longer, p)
    {
      var k :| 0 <= k < |attempts| && (attempts[k].pos == p ||
        (attempts[k].accepted && |attempts[k].msg| > 0 &&
            attempts[k].pos < p <= attempts[k].pos + Skip(attempts[k].msg)));
      assert longer[k] == attempts[k];
    }
  }

  method TryAt(candidates: Candidates, m: seq<int>, pa: nat, sampleTimestamp: int, threshold: int, receiver: Receiver,
               formats: Formats, k: nat) returns (attempt: Attempt)
    requires candidates.Valid() && Readable(m, pa) && PreCheck(m, pa)
    modifies candidates, candidates.msg1, candidates.msg2
    ensures candidates.Valid()
    ensures attempt.pos == pa && Honest(receiver, m, threshold, formats, sampleTimestamp, k, attempt)
    ensures attempt.accepted ==> |attempt.msg| == MODES_LONG_MSG_BYTES
  {
    hide LoudPhases, PreCheck, PhaseScore, FirstAt, PhaseMessage;
    candidates.TryPosition(m, pa, threshold, receiver.score(k), formats);
    if candidates.bestscore < 0 {
      return Attempt(pa, candidates.bestscore, 0, [], false, 0);
    }
    var msg := candidates.bestmsg[..];
    var timestamp := sampleTimestamp + pa * 5 + (8 + 56) * 12 + candidates.bestphase;
    attempt := Attempt(pa, candidates.bestscore, candidates.bestphase, msg, receiver.decodes(k, msg), timestamp);
  }
}
