/** Reading a trace back in globe_index.c: reassembly from the chunks and the live array,
    and the search for the first point of a time. */
module TraceReassembly {
  import opened TraceStore

  // A reassembled trace: its points are the first len slots.
  datatype TraceBuffer = TraceBuffer(trace: seq<Slot>, len: nat)

  ghost function Points(tb: TraceBuffer): seq<Slot> {
    if tb.len <= |tb.trace| then tb.trace[..tb.len] else []
  }

  // ---------------------------------------------------------------- the chunks needed

  lemma DropOne(codec: Codec, chunks: seq<StateChunk>, k: nat)
    requires 0 < k <= |chunks|
    ensures NumStates(chunks[k - 1..]) == chunks[k - 1].numStates + NumStates(chunks[k..])
    ensures Unpacked(codec, chunks[k - 1..]) ==
        codec.decompress(chunks[k - 1].compressed) + Unpacked(codec, chunks[k..])
  {
    assert chunks[k - 1..] == [chunks[k - 1]] + chunks[k..];
    UnpackedConcat(codec, [chunks[k - 1]], chunks[k..]);
    UnpackedOne(codec, chunks[k - 1]);
  }

  // The first chunk that is needed for a number of points.
  method ChunksForPoints(a: Trace, numPoints: int) returns (firstChunk: nat, allocLen: int)
    requires AllDescribe(a.codec, a.chunks)
    ensures firstChunk <= |a.chunks| && allocLen == NumStates(a.chunks[firstChunk..]) + a.currentLen
    ensures firstChunk == 0 || allocLen >= numPoints
    ensures firstChunk < |a.chunks| ==> NumStates(a.chunks[firstChunk + 1..]) + a.currentLen < numPoints
  {
    hide AllDescribe, Unpacked, NumStates;
    allocLen := a.currentLen;
    firstChunk := |a.chunks|;
    NoStates();
    assert a.chunks[firstChunk..] == [];
    while firstChunk > 0 && allocLen < numPoints
      invariant firstChunk <= |a.chunks| && allocLen == NumStates(a.chunks[firstChunk..]) + a.currentLen
      invariant firstChunk < |a.chunks| ==> NumStates(a.chunks[firstChunk + 1..]) + a.currentLen < numPoints
    {
      DropOne(a.codec, a.chunks, firstChunk);
      firstChunk := firstChunk - 1;
      allocLen := allocLen + a.chunks[firstChunk].numStates;
    }
  }

  lemma NoStates()
    ensures NumStates([]) == 0
  {
  }

  // The first chunk that is needed for the points from a time on.
  method ChunksForTime(a: Trace, afterTimestamp: int) returns (firstChunk: nat, allocLen: int)
    requires AllDescribe(a.codec, a.chunks)
    ensures firstChunk <= |a.chunks| && allocLen == NumStates(a.chunks[firstChunk..]) + a.currentLen
    ensures firstChunk > 0 ==> a.chunks[firstChunk - 1].lastTimestamp < afterTimestamp
    ensures forall k :: firstChunk <= k < |a.chunks| ==> a.chunks[k].lastTimestamp >= afterTimestamp
  {
    hide AllDescribe, Unpacked, NumStates;
    allocLen := a.currentLen;
    firstChunk := |a.chunks|;
    NoStates();
    assert a.chunks[firstChunk..] == [];
    while firstChunk > 0
      invariant firstChunk <= |a.chunks| && allocLen == NumStates(a.chunks[firstChunk..]) + a.currentLen
      invariant forall k :: firstChunk <= k < |a.chunks| ==> a.chunks[k].lastTimestamp >= afterTimestamp
    {
      if afterTimestamp > a.chunks[firstChunk - 1].lastTimestamp {
        break;
      }
      DropOne(a.codec, a.chunks, firstChunk);
      firstChunk := firstChunk - 1;
      allocLen := allocLen + a.chunks[firstChunk].numStates;
    }
  }

  // The sum of all chunk sizes.
  method AllChunks(a: Trace) returns (allocLen: int)
    ensures allocLen == NumStates(a.chunks) + a.currentLen
  {
    allocLen := a.currentLen;
    var k := 0;
    while k < |a.chunks|
      invariant 0 <= k <= |a.chunks| && allocLen == NumStates(a.chunks[..k]) + a.currentLen
    {
      assert a.chunks[..k + 1][..k] == a.chunks[..k];
      allocLen := allocLen + a.chunks[k].numStates;
      k := k + 1;
    }
    assert a.chunks[..k] == a.chunks;
  }

  // What ZSTD_decompressDCtx and memcpy write at an offset of the buffer.
  method CopyTo(buffer: array<Slot>, at: nat, source: seq<Slot>)
    requires at + |source| <= buffer.Length
    modifies buffer
    ensures buffer[..at + |source|] == old(buffer[..at]) + source
  {
    for i := 0 to |source|
      invariant buffer[..at] == old(buffer[..at]) && buffer[at..at + i] == source[..i]
    {
      buffer[at + i] := source[i];
    }
    assert buffer[..at + |source|] == buffer[..at] + buffer[at..at + |source|];
  }

  // The chunks from one on, unpacked one after the other.
  method UnpackInto(a: Trace, firstChunk: nat, buffer: array<Slot>) returns (tp: nat)
    requires a.Configured() && AllDescribe(a.codec, a.chunks) && firstChunk <= |a.chunks|
    requires NumStates(a.chunks[firstChunk..]) <= buffer.Length && buffer != a.current
    modifies buffer
    ensures tp == NumStates(a.chunks[firstChunk..]) && tp % SFOUR == 0
    ensures buffer[..tp] == Unpacked(a.codec, a.chunks[firstChunk..])
  {
    hide Unpacked, NumStates, Lossless, AllDescribe;
    ghost var codec, all := a.codec, a.chunks[firstChunk..];
    tp := 0;
    var k := firstChunk;
    NoStates();
    UnpackedNone(codec);
    SuffixDescribes(codec, a.chunks, firstChunk);
    while k < |a.chunks|
      invariant firstChunk <= k <= |a.chunks|
      invariant tp == NumStates(all[..k - firstChunk]) && tp <= buffer.Length
      invariant buffer[..tp] == Unpacked(codec, all[..k - firstChunk])
    {
      var chunk := a.chunks[k];
      var n := k - firstChunk;
      assert all[..n + 1] == all[..n] + [chunk];
      AppendedChunk(codec, all[..n], chunk);
      StatesUpTo(codec, all, n);
      var points := a.codec.decompress(chunk.compressed);
      CopyTo(buffer, tp, points);
      tp := tp + chunk.numStates;
      k := k + 1;
    }
    assert all[..k - firstChunk] == all;
    UnpackedLength(codec, all);
  }

  lemma SuffixDescribes(codec: Codec, chunks: seq<StateChunk>, k: nat)
    requires AllDescribe(codec, chunks) && k <= |chunks|
    ensures AllDescribe(codec, chunks[k..])
  {
  }

  lemma StatesUpTo(codec: Codec, chunks: seq<StateChunk>, n: nat)
    requires AllDescribe(codec, chunks) && n < |chunks|
    ensures Describes(codec, chunks[n])
    ensures NumStates(chunks[..n + 1]) == NumStates(chunks[..n]) + chunks[n].numStates <= NumStates(chunks)
  {
    hide Unpacked, Describes, NumStates;
    assert Describes(codec, chunks[n]);
    assert chunks[..n + 1] == chunks[..n] + [chunks[n]];
    assert chunks == chunks[..n + 1] + chunks[n + 1..];
    UnpackedConcat(codec, chunks[..n], [chunks[n]]);
    UnpackedOne(codec, chunks[n]);
    UnpackedConcat(codec, chunks[..n + 1], chunks[n + 1..]);
    SuffixDescribes(codec, chunks, n + 1);
    StatesNotNegative(codec, chunks[n + 1..]);
  }

  lemma StatesNotNegative(codec: Codec, chunks: seq<StateChunk>)
    requires AllDescribe(codec, chunks)
    ensures NumStates(chunks) >= 0
  {
    hide Unpacked, NumStates;
    UnpackedLength(codec, chunks);
  }

  lemma AlignedAfter(tp: int, n: int)
    requires tp % SFOUR == 0
    ensures tp + AlignSFOUR(n) == AlignSFOUR(tp + n)
  {
  }

  // The buffer of reassembleTrace: the needed chunks, then the live points.
  method Reassembled(a: Trace, firstChunk: nat, allocLen: int) returns (tb: TraceBuffer)
    requires a.Valid() && firstChunk <= |a.chunks| && allocLen == NumStates(a.chunks[firstChunk..]) + a.currentLen
    ensures tb.len == allocLen <= |tb.trace| && |tb.trace| % SFOUR == 0
    ensures Points(tb) == Unpacked(a.codec, a.chunks[firstChunk..]) + a.current[..a.currentLen]
  {
    hide Unpacked, NumStates, Lossless, Sorted, Follows, AllDescribe, AlignSFOUR;
    Split(a.codec, a.chunks, firstChunk);
    var buffer := new Slot[AlignSFOUR(allocLen)](_ => Slot(0, [], []));
    var tp := UnpackInto(a, firstChunk, buffer);
    if a.currentLen > 0 {
      var count := AlignSFOUR(a.currentLen);
      AlignedFits(a.currentLen, a.current.Length);
      AlignedAfter(tp, a.currentLen);
      ghost var live := a.current[..count];
      CopyTo(buffer, tp, a.current[..count]);
      assert live[..a.currentLen] == a.current[..a.currentLen];
      assert buffer[..tp + a.currentLen] == buffer[..tp + count][..tp + a.currentLen];
    }
    tb := TraceBuffer(buffer[..], tp + a.currentLen);
    assert Points(tb) == buffer[..tp + a.currentLen];
  }

  // Without its first chunk the part would be too short, or lack a point that is asked for.
  ghost predicate NoChunkTooMany(chunks: seq<StateChunk>, currentLen: nat, numPoints: int, afterTimestamp: int,
                                 firstChunk: nat) {
    && firstChunk <= |chunks|
    && (numPoints >= 0 && firstChunk < |chunks| ==> NumStates(chunks[firstChunk + 1..]) + currentLen < numPoints)
    && (numPoints < 0 && afterTimestamp > 0 ==> forall k :: firstChunk <= k < |chunks| ==>
        chunks[k].lastTimestamp >= afterTimestamp)
  }

  // The chunks that reassembleTrace starts with.
  method NeededChunks(a: Trace, numPoints: int, afterTimestamp: int) returns (firstChunk: nat, allocLen: int)
    requires AllDescribe(a.codec, a.chunks)
    ensures firstChunk <= |a.chunks| && allocLen == NumStates(a.chunks[firstChunk..]) + a.currentLen
    ensures numPoints >= 0 ==> firstChunk == 0 || allocLen >= numPoints
    ensures numPoints < 0 && afterTimestamp > 0 && firstChunk > 0 ==>
        a.chunks[firstChunk - 1].lastTimestamp < afterTimestamp
    ensures numPoints < 0 && afterTimestamp <= 0 ==> firstChunk == 0
    ensures NoChunkTooMany(a.chunks, a.currentLen, numPoints, afterTimestamp, firstChunk)
  {
    if numPoints >= 0 {
      firstChunk, allocLen := ChunksForPoints(a, numPoints);
    } else if afterTimestamp > 0 {
      firstChunk, allocLen := ChunksForTime(a, afterTimestamp);
    } else {
      firstChunk := 0;
      allocLen := AllChunks(a);
      assert a.chunks[0..] == a.chunks;
    }
  }

  /** reassembleTrace gives back an end of the trace that starts at a whole fourState: all of
      it, or at least the number of points asked for, or at least the points from a time on. */
  method ReassembleTrace(a: Trace, numPoints: int, afterTimestamp: int)
      returns (tb: TraceBuffer, ghost firstChunk: nat, ghost skipped: nat)
    requires a.Valid()
    ensures tb.len <= |tb.trace| && |tb.trace| % SFOUR == 0 && skipped % SFOUR == 0
    ensures skipped <= |a.Content()| && Points(tb) == a.Content()[skipped..]
    ensures numPoints >= 0 ==> skipped == 0 || tb.len >= numPoints
    ensures numPoints < 0 && afterTimestamp > 0 ==> DropsExpired(a.Content(), skipped, afterTimestamp)
    ensures numPoints < 0 && afterTimestamp <= 0 ==> skipped == 0
    ensures NoChunkTooMany(a.chunks, a.currentLen, numPoints, afterTimestamp, firstChunk)
    ensures skipped == |Unpacked(a.codec, a.chunks[..firstChunk])|
  {
    hide Unpacked, NumStates, Lossless, Sorted, Follows, DropsExpired, Points, NoChunkTooMany;
    var first, allocLen := NeededChunks(a, numPoints, afterTimestamp);
    firstChunk := first;
    tb := Reassembled(a, first, allocLen);
    skipped := |Unpacked(a.codec, a.chunks[..firstChunk])|;
    SkippedChunks(a.codec, a.chunks, firstChunk, a.current[..a.currentLen], afterTimestamp);
  }

  // Leaving out leading chunks leaves out the first points.
  lemma SkippedChunks(codec: Codec, chunks: seq<StateChunk>, k: nat, live: seq<Slot>, time: int)
    requires AllDescribe(codec, chunks) && k <= |chunks| && Sorted(Unpacked(codec, chunks) + live)
    ensures var n, all := |Unpacked(codec, chunks[..k])|, Unpacked(codec, chunks) + live;
      && n % SFOUR == 0 && n <= |all| && Unpacked(codec, chunks[k..]) + live == all[n..]
      && (k == 0 ==> n == 0)
      && (k == 0 || chunks[k - 1].lastTimestamp < time ==> DropsExpired(all, n, time))
  {
    hide Unpacked, NumStates, Sorted;
    Split(codec, chunks, k);
    UnpackedNone(codec);
    var gone, kept := Unpacked(codec, chunks[..k]), Unpacked(codec, chunks[k..]);
    var all := Unpacked(codec, chunks) + live;
    assert all == [] + gone + (kept + live);
    SortedPart([], gone, kept + live);
    if k > 0 {
      LastIsLatest(codec, chunks[..k]);
    }
  }

  lemma Split(codec: Codec, chunks: seq<StateChunk>, k: nat)
    requires AllDescribe(codec, chunks) && k <= |chunks|
    ensures Unpacked(codec, chunks) == Unpacked(codec, chunks[..k]) + Unpacked(codec, chunks[k..])
    ensures NumStates(chunks) == NumStates(chunks[..k]) + NumStates(chunks[k..])
    ensures |Unpacked(codec, chunks[..k])| == NumStates(chunks[..k]) && NumStates(chunks[..k]) % SFOUR == 0
    ensures |Unpacked(codec, chunks[k..])| == NumStates(chunks[k..]) && NumStates(chunks[k..]) % SFOUR == 0
  {
    assert chunks == chunks[..k] + chunks[k..];
    UnpackedConcat(codec, chunks[..k], chunks[k..]);
    UnpackedLength(codec, chunks[..k]);
    UnpackedLength(codec, chunks[k..]);
  }

  // ------------------------------------------------------------------- lower bound

  /** first_index_ge_timestamp is the exact lower bound: pivots while far apart, then one by
      one. */
  method FirstIndexGeTimestamp(tb: TraceBuffer, timestamp: int) returns (index: nat)
    requires tb.len <= |tb.trace| && Sorted(Points(tb))
    ensures index <= tb.len
    ensures forall i :: 0 <= i < index ==> tb.trace[i].ts < timestamp
    ensures forall i :: index <= i < tb.len ==> tb.trace[i].ts >= timestamp
  {
    var start, end := 0, tb.len - 1;
    while start + 32 < end
      invariant 0 <= start <= end + 1 <= tb.len
      invariant forall i :: 0 <= i < start ==> Points(tb)[i].ts < timestamp
      invariant end == tb.len - 1 || (end >= 0 && Points(tb)[end].ts >= timestamp)
      decreases end - start
    {
      var pivot := (start + end) / 2 + 1;
      if tb.trace[pivot].ts < timestamp {
        start := pivot + 1;
      } else {
        end := pivot;
      }
    }
    var i := start;
    while i <= end
      invariant start <= i <= end + 1
      invariant forall j :: 0 <= j < i && j < tb.len ==> Points(tb)[j].ts < timestamp
    {
      if tb.trace[i].ts >= timestamp {
        assert forall j :: i <= j < tb.len ==> Points(tb)[j].ts >= timestamp;
        return i;
      }
      i := i + 1;
    }
    return tb.len;
  }
}
