/** The front end of native_modes_decoder.cpp: calls of any size bring bytes of I and Q
    samples, which are paired into magnitudes; the last samples of a call are kept for the
    next one, and a byte without its partner waits for it. */
module IqStream {
  import opened Basics

  // How a pair of bytes becomes a sample.
  type Detector = (bv8, bv8) -> int

  /** The samples of a stream of bytes, whatever calls brought them. */
  function Pairing(magnitude: Detector, stream: seq<bv8>): seq<int> {
    seq(|stream| / 2, k requires 0 <= k < |stream| / 2 => magnitude(stream[2 * k], stream[2 * k + 1]))
  }

  predicate IsOdd(n: nat) {
    n % 2 == 1
  }

  // The samples that a call appends: the pending byte and the new ones, in pairs.
  lemma PairedPart(magnitude: Detector, stream: seq<bv8>, iq: seq<bv8>)
    ensures var odd := stream[|stream| - |stream| % 2..];
      Pairing(magnitude, stream + iq) == Pairing(magnitude, stream) + Pairing(magnitude, odd + iq)
  {
    var odd := stream[|stream| - |stream| % 2..];
    var l, r := Pairing(magnitude, stream + iq), Pairing(magnitude, stream) + Pairing(magnitude, odd + iq);
    var n := |stream| / 2;
    assert |odd + iq| == |stream| % 2 + |iq|;
    forall k | 0 <= k < |l|
      ensures l[k] == r[k]
    {
      if k >= n {
        assert (odd + iq)[2 * (k - n)] == (stream + iq)[2 * k];
        assert (odd + iq)[2 * (k - n) + 1] == (stream + iq)[2 * k + 1];
      }
    }
  }

  // What a call adds to the stream: whole samples, and perhaps a byte that waits.
  lemma StreamGrows(magnitude: Detector, stream: seq<bv8>, iq: seq<bv8>, odd: seq<bv8>, n: nat)
    requires |odd| == (if IsOdd(|stream|) then 1 else 0) && (odd != [] ==> odd == [stream[|stream| - 1]])
    requires n <= |Pairing(magnitude, stream)|
    ensures var before, more, samples :=
        Pairing(magnitude, stream), Pairing(magnitude, odd + iq), Pairing(magnitude, stream + iq);
      && before <= samples && |samples| == |before| + |more|
      && samples[|samples| - (n + |more|)..] == before[|before| - n..] + more
    ensures IsOdd(|odd + iq|) <==> IsOdd(|stream + iq|)
    ensures iq != [] ==> (stream + iq)[|stream + iq| - 1] == iq[|iq| - 1]
  {
    hide Pairing;
    assert odd == stream[|stream| - |stream| % 2..];
    PairedPart(magnitude, stream, iq);
  }

  lemma TwoParts(s: array<int>, i: nat, j: nat)
    requires i <= j <= s.Length
    ensures s[..j] == s[..i] + s[i..j]
  {
  }

  lemma EndOfEnd(s: seq<int>, n: nat, m: nat)
    requires m <= n <= |s|
    ensures s[|s| - n..][n - m..] == s[|s| - m..]
  {
  }

  // std::copy between sample buffers.
  method CopySamples(source: array<int>, from: nat, target: array<int>, count: nat)
    requires source != target && from + count <= source.Length && count <= target.Length
    modifies target
    ensures target[..count] == source[from..from + count]
  {
    for i := 0 to count
      invariant target[..i] == source[from..from + i]
    {
      target[i] := source[from + i];
    }
  }

  class IqBuffers {
    const magnitude: Detector
    const capacity: nat
    const tail: array<int>
    var tailSize: nat
    var mag: array<int>
    var hasPendingIqByte: bool
    var pendingIqByte: bv8
    // The bytes received since the reset.
    ghost var stream: seq<bv8>

    ghost predicate PendingOk()
      reads `hasPendingIqByte, `pendingIqByte, `stream
    {
      && (hasPendingIqByte <==> IsOdd(|stream|))
      && (hasPendingIqByte ==> pendingIqByte == stream[|stream| - 1])
    }

    // The samples of the stream so far.
    ghost function Samples(): seq<int>
      reads `stream
    {
      Pairing(magnitude, stream)
    }

    // The tail holds the last samples of the stream.
    ghost predicate TailOk()
      reads `tailSize, `stream, tail
    {
      && tail.Length == capacity && tailSize == Min(capacity, |Samples()|)
      && tail[..tailSize] == Samples()[|Samples()| - tailSize..]
    }

    ghost predicate Valid()
      reads this, tail
    {
      PendingOk() && TailOk() && tail != mag
    }

    constructor (magnitude: Detector, capacity: nat)
      ensures Valid() && fresh(tail) && fresh(mag) && stream == []
      ensures this.magnitude == magnitude && this.capacity == capacity
    {
      this.magnitude, this.capacity := magnitude, capacity;
      tail := new int[capacity](_ => 0);
      mag := new int[0];
      tailSize, hasPendingIqByte, pendingIqByte := 0, false, 0;
      stream := [];
    }

    // The byte that waits for its partner.
    function Odd(): seq<bv8>
      reads this
    {
      if hasPendingIqByte then [pendingIqByte] else []
    }

    // The pairing of one call's bytes into magnitudes behind the tail.
    method FillMagnitudes(iq: seq<bv8>, at: nat)
      requires |iq| > 0 && at + |Pairing(magnitude, Odd() + iq)| <= mag.Length
      modifies `hasPendingIqByte, `pendingIqByte, mag
      ensures mag[..at] == old(mag[..at])
      ensures mag[at..at + |Pairing(magnitude, old(Odd()) + iq)|] == Pairing(magnitude, old(Odd()) + iq)
      ensures hasPendingIqByte <==> IsOdd(|old(Odd()) + iq|)
      ensures hasPendingIqByte ==> pendingIqByte == iq[|iq| - 1]
    {
      ghost var samples := Pairing(magnitude, Odd() + iq);
      ghost var odd := |Odd()|;
      var inputIndex, pairIndex := 0, 0;
      if hasPendingIqByte {
        mag[at] := magnitude(pendingIqByte, iq[0]);
        inputIndex, pairIndex := 1, 1;
        hasPendingIqByte := false;
      }
      while inputIndex + 1 < |iq|
        invariant 0 <= inputIndex <= |iq| && odd + inputIndex == 2 * pairIndex
        invariant !hasPendingIqByte
        invariant mag[..at] == old(mag[..at])
        invariant forall k :: 0 <= k < pairIndex ==> mag[at + k] == samples[k]
      {
        mag[at + pairIndex] := magnitude(iq[inputIndex], iq[inputIndex + 1]);
        pairIndex := pairIndex + 1;
        inputIndex := inputIndex + 2;
      }
      if inputIndex < |iq| {
        pendingIqByte := iq[inputIndex];
        hasPendingIqByte := true;
      }
      assert pairIndex == |samples|;
      assert mag[at..at + |samples|] == samples;
    }

    // Room for a block, and the tail at its start.
    method StartBlock(room: nat)
      requires tailSize <= tail.Length && tailSize <= room && tail != mag
      modifies `mag, mag
      ensures mag == old(mag) || fresh(mag)
      ensures mag.Length >= room && mag[..tailSize] == tail[..tailSize] && tail != mag
    {
      if mag.Length < room {
        mag := new int[room](_ => 0);
      }
      CopySamples(tail, 0, mag, tailSize);
    }

    method FillBlock(iq: seq<bv8>, magLength: nat, padding: nat)
      requires tailSize <= tail.Length && magLength == tailSize + |Pairing(magnitude, Odd() + iq)|
      requires |iq| > 0 && tail != mag
      modifies `mag, `hasPendingIqByte, `pendingIqByte, mag
      ensures mag == old(mag) || fresh(mag)
      ensures mag.Length >= magLength + padding && tail != mag
      ensures mag[..magLength] == tail[..tailSize] + Pairing(magnitude, old(Odd()) + iq)
      ensures hasPendingIqByte <==> IsOdd(|old(Odd()) + iq|)
      ensures hasPendingIqByte ==> pendingIqByte == iq[|iq| - 1]
    {
      hide Pairing, IsOdd;
      StartBlock(magLength + padding);
      FillMagnitudes(iq, tailSize);
      TwoParts(mag, tailSize, magLength);
    }

    /** A call's block of samples is the end of the stream: the kept tail and every new pair,
        however the bytes were cut into calls. */
    method ReadBlock(iq: seq<bv8>, pairs: nat, padding: nat) returns (magLength: nat)
      requires Valid() && |iq| > 0 && pairs == |Pairing(magnitude, Odd() + iq)| > 0
      modifies `mag, `hasPendingIqByte, `pendingIqByte, `stream, mag
      ensures mag == old(mag) || fresh(mag)
      ensures stream == old(stream) + iq && old(Samples()) <= Samples()
      ensures tail.Length == capacity && tail != mag && mag.Length >= magLength + padding
      ensures magLength == tailSize + pairs <= |Samples()| == |old(Samples())| + pairs
      ensures magLength == |Samples()| || magLength >= capacity
      ensures mag[..magLength] == Samples()[|Samples()| - magLength..]
      ensures tailSize == Min(capacity, |old(Samples())|)
      ensures PendingOk()
    {
      hide Pairing, IsOdd;
      ghost var odd, before, kept := Odd(), Samples(), tail[..tailSize];
      StreamGrows(magnitude, stream, iq, odd, tailSize);
      magLength := tailSize + pairs;
      FillBlock(iq, magLength, padding);
      stream := stream + iq;
    }

    // A single byte without a partner.
    method Hold(byte: bv8)
      requires Valid() && !hasPendingIqByte
      modifies `hasPendingIqByte, `pendingIqByte, `stream
      ensures Valid() && stream == old(stream) + [byte] && Samples() == old(Samples())
    {
      PairedPart(magnitude, stream, [byte]);
      assert stream[|stream| - |stream| % 2..] == [];
      assert [] + [byte] == [byte] && Pairing(magnitude, [byte]) == [];
      pendingIqByte := byte;
      hasPendingIqByte := true;
      stream := stream + [byte];
    }

    // The end of a call: the last samples are kept.
    method KeepTail(magLength: nat)
      requires tail.Length == capacity && tail != mag && magLength <= mag.Length && magLength <= |Samples()|
      requires magLength >= capacity || magLength == |Samples()|
      requires mag[..magLength] == Samples()[|Samples()| - magLength..]
      modifies `tailSize, tail
      ensures TailOk()
    {
      hide Pairing;
      ghost var samples := Samples();
      tailSize := Min(capacity, magLength);
      assert mag[magLength - tailSize..magLength] == samples[|samples| - tailSize..] by {
        assert mag[magLength - tailSize..magLength] == mag[..magLength][magLength - tailSize..];
        EndOfEnd(samples, magLength, tailSize);
      }
      CopySamples(mag, magLength - tailSize, tail, tailSize);
    }

    // How many whole samples a call completes.
    function Pairs(iq: seq<bv8>): nat
      reads this
    {
      (|iq| + if hasPendingIqByte then 1 else 0) / 2
    }

    lemma PairsRight(iq: seq<bv8>)
      ensures Pairs(iq) == |Pairing(magnitude, Odd() + iq)|
      ensures Pairs(iq) == 0 && |iq| > 0 ==> |iq| == 1 && !hasPendingIqByte
    {
    }
  }
}
