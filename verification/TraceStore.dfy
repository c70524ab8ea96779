/** The trace of an aircraft in globe_index.c: compressed chunks, then a live array whose
    slot after the last point buffers one more position. */
module TraceStore {

  type Bytes = seq<bv8>

  // One position of the trace: its timestamp, the rest of its state, and what its position
  // in a fourState holds of the full state record.
  datatype Slot = Slot(ts: int, state: Bytes, all: Bytes)

  const SFOUR: nat := 4
  const MINUTES: int := 60000
  const CHUNK_DURATION: int := 3600000

  // -------------------------------------------------------------------- compression

  // zstd as the code uses it: a byte string of whole frames unpacks to the contents of its
  // frames, and another frame can be appended to it.
  datatype Codec = Codec(compress: seq<Slot> -> Bytes, decompress: Bytes -> seq<Slot>, frames: Bytes -> bool)

  ghost predicate Lossless(codec: Codec) {
    && (forall s: seq<Slot> :: codec.frames(codec.compress(s)) && codec.decompress(codec.compress(s)) == s)
    && (forall a: Bytes, s: seq<Slot> {:trigger a + codec.compress(s)} :: codec.frames(a) ==>
          codec.frames(a + codec.compress(s)) && codec.decompress(a + codec.compress(s)) == codec.decompress(a) + s)
  }

  predicate HasMagic(compressed: Bytes): (r: bool)
    ensures r <==> [0x28, 0xb5, 0x2f, 0xfd] <= compressed
  {
    |compressed| >= 4 && compressed[..4] == [0x28, 0xb5, 0x2f, 0xfd]
  }

  datatype StateChunk = StateChunk(compressed: Bytes, numStates: int, firstTimestamp: int, lastTimestamp: int)

  // A chunk whose bookkeeping describes what its bytes unpack to.
  ghost predicate Describes(codec: Codec, chunk: StateChunk) {
    && codec.frames(chunk.compressed)
    && |codec.decompress(chunk.compressed)| == chunk.numStates
    && 0 < chunk.numStates && chunk.numStates % SFOUR == 0
    && codec.decompress(chunk.compressed)[0].ts == chunk.firstTimestamp
    && codec.decompress(chunk.compressed)[chunk.numStates - 1].ts == chunk.lastTimestamp
  }

  ghost predicate AllDescribe(codec: Codec, chunks: seq<StateChunk>) {
    forall k :: 0 <= k < |chunks| ==> Describes(codec, chunks[k])
  }

  ghost function Unpacked(codec: Codec, chunks: seq<StateChunk>): seq<Slot> {
    if chunks == [] then []
    else Unpacked(codec, chunks[..|chunks| - 1]) + codec.decompress(chunks[|chunks| - 1].compressed)
  }

  function NumStates(chunks: seq<StateChunk>): int {
    if chunks == [] then 0 else NumStates(chunks[..|chunks| - 1]) + chunks[|chunks| - 1].numStates
  }

  lemma {:induction false} UnpackedConcat(codec: Codec, a: seq<StateChunk>, b: seq<StateChunk>)
    ensures Unpacked(codec, a + b) == Unpacked(codec, a) + Unpacked(codec, b)
    ensures NumStates(a + b) == NumStates(a) + NumStates(b)
    decreases |b|
  {
    if b == [] {
      assert a + b == a;
    } else {
      var front := b[..|b| - 1];
      UnpackedConcat(codec, a, front);
      assert (a + b)[..|a + b| - 1] == a + front;
    }
  }

  /** The chunks' counts add up to what they unpack to, in whole fourStates. */
  lemma {:induction false} UnpackedLength(codec: Codec, chunks: seq<StateChunk>)
    requires AllDescribe(codec, chunks)
    ensures |Unpacked(codec, chunks)| == NumStates(chunks) && NumStates(chunks) % SFOUR == 0
    ensures |chunks| > 0 ==> NumStates(chunks) > 0
  {
    if chunks != [] {
      UnpackedLength(codec, chunks[..|chunks| - 1]);
    }
  }

  lemma UnpackedOne(codec: Codec, chunk: StateChunk)
    ensures Unpacked(codec, [chunk]) == codec.decompress(chunk.compressed)
    ensures NumStates([chunk]) == chunk.numStates
  {
    assert [chunk][..0] == [];
  }

  // Timestamps do not go back.
  ghost predicate Sorted(s: seq<Slot>) {
    forall i, j :: 0 <= i < j < |s| ==> s[i].ts <= s[j].ts
  }

  // A timestamp that may come next.
  ghost predicate Follows(s: seq<Slot>, ts: int) {
    forall i :: 0 <= i < |s| ==> s[i].ts <= ts
  }

  function GetFourStates(points: int): int {
    (points + SFOUR - 1) / SFOUR
  }

  function AlignSFOUR(value: int): (aligned: int)
    ensures value <= aligned < value + SFOUR && aligned % SFOUR == 0
  {
    (value + SFOUR - 1) / SFOUR * SFOUR
  }

  // The points in the whole fourStates of n points.
  function RoundDown(n: int): (points: int)
    ensures points % SFOUR == 0 && points <= n < points + SFOUR
  {
    n / SFOUR * SFOUR
  }

  lemma WholeFours(a: int, b: int)
    requires a % SFOUR == 0 && b % SFOUR == 0
    ensures (a + b) % SFOUR == 0
  {
  }

  lemma AlignedFits(value: int, room: int)
    requires value <= room && room % SFOUR == 0
    ensures AlignSFOUR(value) <= room
  {
  }

  lemma Aligned(value: int)
    requires value % SFOUR == 0
    ensures AlignSFOUR(value) == value
  {
  }

  lemma RoomBehind(value: int, from: int, room: int)
    requires from + value <= room && from % SFOUR == 0 && room % SFOUR == 0
    ensures from + AlignSFOUR(value) <= room
  {
  }

  // -------------------------------------------------------- how much compressChunk takes

  // The leading whole fourStates whose point at an offset is at most the chunk duration
  // after refTs, and no more of them.
  ghost predicate Whole(source: seq<Slot>, pointCount: nat, points: nat, offset: nat, refTs: int)
    requires pointCount <= |source| && pointCount % SFOUR == 0 && offset < SFOUR
  {
    && points % SFOUR == 0 && points <= pointCount
    && (forall i :: 0 <= i < points && i % SFOUR == offset ==> source[i].ts - refTs <= CHUNK_DURATION)
    && (points < pointCount ==> source[points + offset].ts - refTs > CHUNK_DURATION)
  }

  // Of four points in a row one is at an offset.
  lemma InFour(i: nat, from: nat, offset: nat)
    requires from <= i < from + SFOUR && from % SFOUR == 0 && offset < SFOUR && i % SFOUR == offset
    ensures i == from + offset
  {
  }

  // The loops of compressChunk.
  method SpanFrom(source: seq<Slot>, pointCount: nat, offset: nat, refTs: int) returns (points: nat)
    requires pointCount % SFOUR == 0 && pointCount <= |source| && offset < SFOUR
    ensures Whole(source, pointCount, points, offset, refTs)
  {
    points := 0;
    while points < pointCount
      invariant points <= pointCount && points % SFOUR == 0
      invariant forall i :: 0 <= i < points && i % SFOUR == offset ==> source[i].ts - refTs <= CHUNK_DURATION
    {
      if source[points + offset].ts - refTs > CHUNK_DURATION {
        break;
      }
      forall i | points <= i < points + SFOUR && i % SFOUR == offset
        ensures i == points + offset
      {
        InFour(i, points, offset);
      }
      points := points + SFOUR;
    }
  }

  // ------------------------------------------------------------- changes of the chunks

  lemma {:induction false} DescribedUpdate(codec: Codec, chunks: seq<StateChunk>, k: int, chunk: StateChunk)
    requires AllDescribe(codec, chunks) && 0 <= k < |chunks| && Describes(codec, chunk)
    requires codec.decompress(chunk.compressed) == codec.decompress(chunks[k].compressed)
    ensures AllDescribe(codec, chunks[k := chunk]) && Unpacked(codec, chunks[k := chunk]) == Unpacked(codec, chunks)
  {
    var n := |chunks| - 1;
    if k == n {
      assert chunks[k := chunk][..n] == chunks[..n];
    } else {
      assert chunks[k := chunk][..n] == chunks[..n][k := chunk];
      DescribedUpdate(codec, chunks[..n], k, chunk);
    }
  }

  /** Appending to the last chunk appends to the trace. */
  lemma ExtendedLast(codec: Codec, chunks: seq<StateChunk>, chunk: StateChunk, more: seq<Slot>)
    requires |chunks| > 0
    requires codec.decompress(chunk.compressed) == codec.decompress(chunks[|chunks| - 1].compressed) + more
    ensures Unpacked(codec, chunks[|chunks| - 1 := chunk]) == Unpacked(codec, chunks) + more
  {
    assert chunks[|chunks| - 1 := chunk][..|chunks| - 1] == chunks[..|chunks| - 1];
  }

  // The last chunk with another frame behind its own.
  function Longer(codec: Codec, chunk: StateChunk, more: seq<Slot>): StateChunk
    requires |more| > 0
  {
    chunk.(numStates := chunk.numStates + |more|, lastTimestamp := more[|more| - 1].ts,
           compressed := chunk.compressed + codec.compress(more))
  }

  lemma LongerDescribes(codec: Codec, chunk: StateChunk, more: seq<Slot>)
    requires Lossless(codec) && Describes(codec, chunk) && |more| > 0 && |more| % SFOUR == 0
    ensures Describes(codec, Longer(codec, chunk, more))
    ensures codec.decompress(Longer(codec, chunk, more).compressed) == codec.decompress(chunk.compressed) + more
  {
    WholeFours(chunk.numStates, |more|);
  }

  lemma LastDescribed(codec: Codec, chunks: seq<StateChunk>, more: seq<Slot>)
    requires Lossless(codec) && AllDescribe(codec, chunks) && |chunks| > 0 && |more| > 0 && |more| % SFOUR == 0
    ensures var longer := chunks[|chunks| - 1 := Longer(codec, chunks[|chunks| - 1], more)];
      && AllDescribe(codec, longer) && Unpacked(codec, longer) == Unpacked(codec, chunks) + more
      && NumStates(longer) == NumStates(chunks) + |more|
  {
    hide Lossless, Describes, Unpacked, Longer;
    var n := |chunks| - 1;
    var extended := Longer(codec, chunks[n], more);
    LongerDescribes(codec, chunks[n], more);
    ExtendedLast(codec, chunks, extended, more);
    UnpackedLength(codec, chunks);
    UnpackedLength(codec, chunks[n := extended]);
  }

  lemma AppendedChunk(codec: Codec, chunks: seq<StateChunk>, chunk: StateChunk)
    ensures Unpacked(codec, chunks + [chunk]) == Unpacked(codec, chunks) + codec.decompress(chunk.compressed)
  {
    assert (chunks + [chunk])[..|chunks|] == chunks;
  }

  lemma SortedPart(a: seq<Slot>, b: seq<Slot>, c: seq<Slot>)
    requires Sorted(a + b + c)
    ensures Sorted(a + b) && Sorted(b + c) && Sorted(b)
  {
    assert forall i :: 0 <= i < |a + b| ==> (a + b + c)[i] == (a + b)[i];
    assert forall i :: 0 <= i < |b + c| ==> (a + b + c)[|a| + i] == (b + c)[i];
    assert forall i :: 0 <= i < |b| ==> (b + c)[i] == b[i];
  }

  lemma SortedParts(packed: seq<Slot>, live: seq<Slot>, n: int)
    requires Sorted(packed + live) && 0 <= n <= |live|
    ensures Sorted(packed + live[..n])
  {
    assert packed + live == packed + live[..n] + live[n..];
    SortedPart(packed, live[..n], live[n..]);
  }

  // Moving a prefix of the live points behind the packed ones leaves the whole.
  lemma Repartitioned(packed: seq<Slot>, live: seq<Slot>, n: int)
    requires 0 <= n <= |live|
    ensures packed + live[..n] + live[n..] == packed + live
  {
  }

  // All points of chunks that are sorted are at most the last timestamp.
  lemma LastIsLatest(codec: Codec, chunks: seq<StateChunk>)
    requires AllDescribe(codec, chunks) && |chunks| > 0 && Sorted(Unpacked(codec, chunks))
    ensures forall i :: 0 <= i < |Unpacked(codec, chunks)| ==>
              Unpacked(codec, chunks)[i].ts <= chunks[|chunks| - 1].lastTimestamp
  {
    var all, last := Unpacked(codec, chunks), codec.decompress(chunks[|chunks| - 1].compressed);
    assert Describes(codec, chunks[|chunks| - 1]);
    assert all[|all| - 1] == last[|last| - 1];
  }

  // The points of leading chunks that all ended before a time.
  lemma DroppedChunks(codec: Codec, chunks: seq<StateChunk>, d: nat, live: seq<Slot>, time: int)
    requires AllDescribe(codec, chunks) && Sorted(Unpacked(codec, chunks) + live) && d <= |chunks|
    requires forall k :: 0 <= k < d ==> chunks[k].lastTimestamp < time
    ensures AllDescribe(codec, chunks[d..]) && |Unpacked(codec, chunks[..d])| == NumStates(chunks[..d])
    ensures NumStates(chunks[d..]) == NumStates(chunks) - NumStates(chunks[..d])
    ensures |Unpacked(codec, chunks[..d])| % SFOUR == 0
    ensures DropsExpired(Unpacked(codec, chunks) + live, |Unpacked(codec, chunks[..d])|, time)
    ensures Unpacked(codec, chunks[d..]) + live == (Unpacked(codec, chunks) + live)[|Unpacked(codec, chunks[..d])|..]
  {
    hide Unpacked, NumStates, Sorted;
    assert chunks == chunks[..d] + chunks[d..];
    UnpackedConcat(codec, chunks[..d], chunks[d..]);
    UnpackedLength(codec, chunks[..d]);
    var gone, kept, all := Unpacked(codec, chunks[..d]), Unpacked(codec, chunks[d..]), Unpacked(codec, chunks) + live;
    assert all == [] + gone + (kept + live);
    SortedPart([], gone, kept + live);
    if d > 0 {
      LastIsLatest(codec, chunks[..d]);
    } else {
      UnpackedNone(codec);
    }
  }

  lemma UnpackedNone(codec: Codec)
    ensures Unpacked(codec, []) == []
  {
  }

  // Exactly so many chunks at the front have ended before a time.
  predicate LeadingExpired(chunks: seq<StateChunk>, gone: nat, time: int) {
    && gone <= |chunks|
    && (forall k :: 0 <= k < gone ==> chunks[k].lastTimestamp < time)
    && (gone < |chunks| ==> chunks[gone].lastTimestamp >= time)
  }

  // The chunks that have ended are dropped, and live points only behind all of them.
  ghost predicate PrunedRight(chunks: seq<StateChunk>, gone: nat, dropped: nat, time: int) {
    && LeadingExpired(chunks, gone, time) && dropped >= NumStates(chunks[..gone])
    && (dropped > NumStates(chunks[..gone]) ==> gone == |chunks|)
  }

  lemma NoneLeft(codec: Codec, chunks: seq<StateChunk>, gone: nat, time: int)
    requires AllDescribe(codec, chunks) && LeadingExpired(chunks, gone, time)
    requires Unpacked(codec, chunks[gone..]) == []
    ensures chunks[gone..] == [] && NumStates(chunks[..gone]) == NumStates(chunks)
  {
    UnpackedLength(codec, chunks[gone..]);
    if gone == |chunks| {
      assert chunks[..gone] == chunks;
    }
  }

  // The first n points of a trace are gone, all of them from before a time.
  ghost predicate DropsExpired(all: seq<Slot>, n: int, time: int) {
    0 <= n <= |all| && forall i :: 0 <= i < n ==> all[i].ts < time
  }

  lemma DroppedSorted(all: seq<Slot>, n: int, time: int)
    requires Sorted(all) && DropsExpired(all, n, time)
    ensures Sorted(all[n..])
  {
  }

  lemma FollowsSuffix(all: seq<Slot>, n: int, time: int)
    requires DropsExpired(all, n, time)
    ensures forall ts :: Follows(all, ts) ==> Follows(all[n..], ts)
  {
  }

  lemma DroppedTwice(all: seq<Slot>, n: int, m: int, time: int)
    requires DropsExpired(all, n, time) && DropsExpired(all[n..], m, time)
    ensures DropsExpired(all, n + m, time) && all[n..][m..] == all[n + m..]
  {
    assert forall i :: n <= i < n + m ==> all[i] == all[n..][i - n];
  }

  lemma FirstChunk(codec: Codec, chunks: seq<StateChunk>)
    requires AllDescribe(codec, chunks) && chunks != []
    ensures Describes(codec, chunks[0])
    ensures Unpacked(codec, chunks) == codec.decompress(chunks[0].compressed) + Unpacked(codec, chunks[1..])
  {
    hide Unpacked;
    assert [chunks[0]] + chunks[1..] == chunks;
    UnpackedConcat(codec, [chunks[0]], chunks[1..]);
    UnpackedOne(codec, chunks[0]);
  }

  // No live point is from before the end of a chunk.
  lemma LiveAfterChunks(codec: Codec, chunks: seq<StateChunk>, live: seq<Slot>)
    requires AllDescribe(codec, chunks) && chunks != [] && Sorted(Unpacked(codec, chunks) + live)
    ensures forall i :: 0 <= i < |live| ==> chunks[0].lastTimestamp <= live[i].ts
  {
    hide Unpacked;
    FirstChunk(codec, chunks);
    var head, rest := codec.decompress(chunks[0].compressed), Unpacked(codec, chunks[1..]);
    var all, k := head + rest + live, |head| - 1;
    assert all[k] == head[k];
    forall i | 0 <= i < |live|
      ensures all[k].ts <= live[i].ts
    {
      assert all[|head + rest| + i] == live[i];
    }
  }

  // Whole fourStates that end before a time hold only points from before it, and they can
  // only be there when no chunk is left.
  lemma ExpiredPrefix(codec: Codec, chunks: seq<StateChunk>, live: seq<Slot>, points: int, time: int)
    requires AllDescribe(codec, chunks) && Sorted(Unpacked(codec, chunks) + live)
    requires chunks != [] ==> chunks[0].lastTimestamp >= time
    requires 0 <= points <= |live| && points % SFOUR == 0
    requires forall k :: 0 <= k < points && k % SFOUR == SFOUR - 1 ==> live[k].ts < time
    ensures DropsExpired(Unpacked(codec, chunks) + live, 0, time)
    ensures points > 0 ==> Unpacked(codec, chunks) == [] && DropsExpired(live, points, time) && Sorted(live)
  {
    hide Unpacked, AllDescribe, Sorted;
    if points > 0 {
      var packed := Unpacked(codec, chunks);
      assert live[SFOUR - 1].ts < time;
      if chunks != [] {
        LiveAfterChunks(codec, chunks, live);
        assert false;
      }
      UnpackedNone(codec);
      assert packed + live == live;
      EveryFourth(live, points, time);
    }
  }

  lemma EveryFourth(live: seq<Slot>, points: int, time: int)
    requires Sorted(live) && 0 <= points <= |live| && points % SFOUR == 0
    requires forall k :: 0 <= k < points && k % SFOUR == SFOUR - 1 ==> live[k].ts < time
    ensures DropsExpired(live, points, time)
  {
    if points > 0 {
      assert live[points - 1].ts < time;
    }
  }

  lemma NothingPacked(codec: Codec)
    ensures AllDescribe(codec, []) && NumStates([]) == 0
  {
  }

  lemma NothingDropped(codec: Codec, chunks: seq<StateChunk>, live: seq<Slot>, time: int)
    ensures var all := Unpacked(codec, chunks) + live; DropsExpired(all, 0, time) && all[0..] == all
  {
  }

  lemma PrunedLive(live: seq<Slot>, n: int, time: int)
    requires Sorted(live) && DropsExpired(live, n, time)
    ensures [] + live == live && [] + live[n..] == live[n..]
    ensures Sorted(live[n..])
    ensures forall ts :: Follows(live, ts) ==> Follows(live[n..], ts)
  {
    DroppedSorted(live, n, time);
    FollowsSuffix(live, n, time);
  }

  // The first fourState that is not expired comes before the end of the reserve.
  lemma FewLeft(packed: seq<Slot>, live: seq<Slot>, points: nat, reserve: nat, time: int)
    requires Sorted(packed + live) && points % SFOUR == 0 && reserve % SFOUR == 0 && reserve >= SFOUR
    requires points <= |live| && (points + SFOUR <= |live| ==> live[points + SFOUR - 1].ts >= time)
    ensures points < reserve <= |live| ==> live[reserve - 1].ts >= time
    ensures points + reserve <= |live| ==> live[points + reserve - 1].ts >= time
  {
    assert forall i :: 0 <= i < |live| ==> (packed + live)[|packed| + i] == live[i];
  }

  lemma AllExpired(all: seq<Slot>, time: int)
    requires Sorted(all) && (all != [] ==> all[|all| - 1].ts < time)
    ensures DropsExpired(all, |all|, time) && all[|all|..] == []
  {
  }

  // The part of the source that is packed next.
  lemma NextPart(source: seq<Slot>, len: int, p: int, n: int)
    requires 0 <= p <= p + n <= len <= |source| && Sorted(source[..len])
    ensures source[..p] + source[p..][..n] == source[..p + n] && Sorted(source[..p] + source[p..][..n])
  {
    PrefixSorted(source[..len], p + n);
    assert source[..len][..p + n] == source[..p + n];
  }

  lemma PrefixSorted(s: seq<Slot>, n: int)
    requires Sorted(s) && 0 <= n <= |s|
    ensures Sorted(s[..n])
  {
  }

  class Trace {
    const codec: Codec
    const traceReserve: nat
    const traceChunkPoints: nat
    const traceRecentPoints: nat
    const traceChunkMaxBytes: int
    const keepTraces: int

    var chunks: seq<StateChunk>
    // trace_current with its trace_current_max slots; of length zero when there is none.
    var current: array<Slot>
    var currentLen: nat
    var traceLen: int
    var posBuffered: bool
    var chunkRecompressed: bool
    var seenPosReliable: int

    ghost predicate Configured() {
      && Lossless(codec)
      && traceReserve >= SFOUR && traceReserve % SFOUR == 0 && traceRecentPoints % SFOUR == 0 && traceChunkPoints > 0
    }

    /** What reassembleTrace gives back of the whole trace. */
    ghost function Content(): seq<Slot>
      reads this, current
    {
      Unpacked(codec, chunks) + if currentLen <= current.Length then current[..currentLen] else []
    }

    ghost predicate Valid()
      reads this, current
    {
      && Configured() && AllDescribe(codec, chunks)
      && current.Length % SFOUR == 0
      && (current.Length > 0 ==> currentLen < current.Length)
      && (current.Length == 0 ==> currentLen == 0 && !posBuffered)
      && traceLen == NumStates(chunks) + currentLen
      && Sorted(Content())
      && (posBuffered ==> currentLen + 1 < current.Length && Follows(Content(), current[currentLen].ts))
    }

    // An aircraft without a trace.
    constructor (codec: Codec, traceReserve: nat, traceChunkPoints: nat, traceRecentPoints: nat,
                 traceChunkMaxBytes: int, keepTraces: int)
      requires Lossless(codec) && traceChunkPoints > 0
      requires traceReserve >= SFOUR && traceReserve % SFOUR == 0 && traceRecentPoints % SFOUR == 0
      ensures Valid() && fresh(current) && Content() == [] && traceLen == 0
    {
      this.codec, this.traceReserve, this.traceChunkPoints := codec, traceReserve, traceChunkPoints;
      this.traceRecentPoints, this.traceChunkMaxBytes, this.keepTraces :=
          traceRecentPoints, traceChunkMaxBytes, keepTraces;
      chunks, current, currentLen, traceLen := [], new Slot[0], 0, 0;
      posBuffered, chunkRecompressed, seenPosReliable := false, false, 0;
    }

    // A chunk before and after recompressStateChunk, which leaves large chunks alone.
    predicate Finished(before: StateChunk, after: StateChunk) {
      if traceChunkMaxBytes > 16 * 1024 || !HasMagic(before.compressed) then after == before
      else
        var compressed := codec.compress(codec.decompress(before.compressed));
        after.compressed == if |compressed| < |before.compressed| then compressed else before.compressed
    }

    // recompressStateChunk: another encoding of the same points, if it is shorter.
    method RecompressStateChunk(k: nat)
      requires Configured() && AllDescribe(codec, chunks) && k < |chunks|
      modifies `chunks, `chunkRecompressed
      ensures AllDescribe(codec, chunks) && Unpacked(codec, chunks) == old(Unpacked(codec, chunks))
      ensures |chunks| == old(|chunks|) && NumStates(chunks) == old(NumStates(chunks))
      ensures chunkRecompressed && chunks == old(chunks)[k := chunks[k]] && Finished(old(chunks[k]), chunks[k])
    {
      chunkRecompressed := true;
      var chunk := chunks[k];
      if traceChunkMaxBytes > 16 * 1024 || !HasMagic(chunk.compressed) {
        return;
      }
      var compressed := codec.compress(codec.decompress(chunk.compressed));
      if |compressed| < |chunk.compressed| {
        UnpackedLength(codec, chunks);
        var shorter := chunk.(compressed := compressed);
        DescribedUpdate(codec, chunks, k, shorter);
        chunks := chunks[k := shorter];
        UnpackedLength(codec, chunks);
      }
    }

    // resizeTraceChunks: it shrinks from the front and grows at the end.
    method ResizeTraceChunks(newLen: nat)
      modifies `chunks
      ensures |chunks| == newLen
      ensures newLen <= old(|chunks|) ==> chunks == old(chunks)[old(|chunks|) - newLen..]
      ensures newLen >= old(|chunks|) ==> chunks[..old(|chunks|)] == old(chunks)
    {
      if |chunks| > newLen {
        chunks := chunks[|chunks| - newLen..];
      } else {
        chunks := chunks + seq(newLen - |chunks|, _ => StateChunk([], 0, 0, 0));
      }
    }

    // The last chunk may grow: it is small enough and holds zstd frames.
    predicate Extensible(chunks: seq<StateChunk>) {
      && |chunks| > 0 && |chunks[|chunks| - 1].compressed| <= traceChunkMaxBytes
      && HasMagic(chunks[|chunks| - 1].compressed)
    }

    // The points that were packed: as many as fit the duration of the last chunk, if it may
    // grow, and else as many as fit the duration of a new one, whose clock starts with the
    // second fourState.
    ghost predicate Taken(before: seq<StateChunk>, source: seq<Slot>, pointCount: nat, res: nat)
      requires 0 < pointCount <= |source| && pointCount % SFOUR == 0
      reads `chunks
    {
      if Extensible(before) && source[SFOUR - 1].ts - before[|before| - 1].firstTimestamp <= CHUNK_DURATION then
        && |chunks| == |before|
        && Whole(source, pointCount, res, SFOUR - 1, before[|before| - 1].firstTimestamp)
      else
        && |chunks| == |before| + 1
        && Whole(source, pointCount, res, 0, source[if pointCount > SFOUR then SFOUR else 0].ts)
    }

    // How many points the last chunk can be extended by.
    method Extending(source: seq<Slot>, pointCount: nat) returns (extending: nat)
      requires 0 < pointCount && pointCount % SFOUR == 0 && pointCount <= |source|
      ensures extending % SFOUR == 0 && extending <= pointCount
      ensures extending > 0 <==>
          Extensible(chunks) && source[SFOUR - 1].ts - chunks[|chunks| - 1].firstTimestamp <= CHUNK_DURATION
      ensures extending > 0 ==> Whole(source, pointCount, extending, SFOUR - 1, chunks[|chunks| - 1].firstTimestamp)
    {
      extending := 0;
      if |chunks| > 0 {
        var lastChunk := chunks[|chunks| - 1];
        extending := SpanFrom(source, pointCount, SFOUR - 1, lastChunk.firstTimestamp);
        if extending > 0 && |lastChunk.compressed| > traceChunkMaxBytes {
          extending := 0;
        }
        if extending > 0 && !HasMagic(lastChunk.compressed) {
          extending := 0;
        }
      }
    }

    /** compressChunk moves a leading part of the source, whole fourStates and at least one,
        behind the compressed trace. */
    method CompressChunk(source: seq<Slot>, pointCount: nat) returns (res: nat)
      requires Configured() && AllDescribe(codec, chunks) && pointCount <= |source|
      requires Sorted(Unpacked(codec, chunks) + source[..pointCount])
      modifies `chunks, `chunkRecompressed
      ensures AllDescribe(codec, chunks)
      ensures res % SFOUR == 0 && res <= pointCount
      ensures Unpacked(codec, chunks) == old(Unpacked(codec, chunks)) + source[..res]
      ensures NumStates(chunks) == old(NumStates(chunks)) + res
      ensures res > 0 <==> pointCount >= SFOUR && pointCount % SFOUR == 0
      ensures res > 0 ==> Taken(old(chunks), source, pointCount, res)
      ensures |chunks| == old(|chunks|) || |chunks| == old(|chunks|) + 1
      ensures |chunks| == old(|chunks|) + 1 && old(|chunks|) > 0 ==>
        Finished(old(chunks[|chunks| - 1]), chunks[|chunks| - 2])
    {
      hide Finished, Lossless, NumStates, Describes;
      res := 0;
      if pointCount < SFOUR || pointCount % SFOUR != 0 {
        return;
      }
      UnpackedLength(codec, chunks);
      var extending := Extending(source, pointCount);
      if extending > 0 {
        res := extending;
        Extend(source[..res]);
      } else {
        var refTs := if pointCount > SFOUR then source[SFOUR].ts else source[0].ts;
        res := SpanFrom(source, pointCount, 0, refTs);
        assert source[0].ts <= refTs by {
          var all := Unpacked(codec, chunks);
          assert forall i :: 0 <= i < pointCount ==> (all + source[..pointCount])[|all| + i] == source[i];
        }
        if |chunks| > 0 {
          RecompressStateChunk(|chunks| - 1);
        }
        NewChunk(source[..res]);
      }
    }

    method Extend(more: seq<Slot>)
      requires Configured() && AllDescribe(codec, chunks) && |chunks| > 0
      requires |more| > 0 && |more| % SFOUR == 0
      modifies `chunks
      ensures AllDescribe(codec, chunks)
      ensures Unpacked(codec, chunks) == old(Unpacked(codec, chunks)) + more
      ensures NumStates(chunks) == old(NumStates(chunks)) + |more| && |chunks| == old(|chunks|)
    {
      hide Lossless, Unpacked, NumStates, AllDescribe, Describes;
      var n := |chunks| - 1;
      var target := chunks[n];
      var compressed := target.compressed + codec.compress(more);
      var extended := target.(numStates := target.numStates + |more|,
                              lastTimestamp := more[|more| - 1].ts, compressed := compressed);
      LastDescribed(codec, chunks, more);
      chunks := chunks[n := extended];
    }

    method NewChunk(points: seq<Slot>)
      requires Configured() && AllDescribe(codec, chunks)
      requires |points| > 0 && |points| % SFOUR == 0
      modifies `chunks, `chunkRecompressed
      ensures AllDescribe(codec, chunks)
      ensures Unpacked(codec, chunks) == old(Unpacked(codec, chunks)) + points
      ensures NumStates(chunks) == old(NumStates(chunks)) + |points| && |chunks| == old(|chunks|) + 1
      ensures !chunkRecompressed && chunks[..old(|chunks|)] == old(chunks)
    {
      chunkRecompressed := false;
      ghost var was := chunks;
      ResizeTraceChunks(|chunks| + 1);
      var n := |chunks| - 1;
      var target := StateChunk(codec.compress(points), |points|, points[0].ts, points[|points| - 1].ts);
      chunks := chunks[n := target];
      assert chunks == was + [target];
      AppendedChunk(codec, was, target);
      UnpackedLength(codec, was);
      UnpackedLength(codec, chunks);
    }

    function MinCurrentPoints(now: int): (n: nat)
      reads `seenPosReliable
      ensures n == 8 || n == 16
    {
      if now - seenPosReliable > 15 * MINUTES then AlignSFOUR(8) else AlignSFOUR(16)
    }

    function NominalCurrentPoints(now: int): (n: int)
      reads `seenPosReliable
      requires Configured()
    {
      if now - seenPosReliable > 15 * MINUTES then AlignSFOUR(traceReserve + MinCurrentPoints(now) + SFOUR)
      else
        var recent, chunk := AlignSFOUR(traceRecentPoints), AlignSFOUR(traceReserve + traceChunkPoints);
        MinCurrentPoints(now) + if recent > chunk then recent else chunk
    }

    lemma NominalIsWhole(now: int)
      requires Configured()
      ensures NominalCurrentPoints(now) > 0 && NominalCurrentPoints(now) % SFOUR == 0
    {
      hide AlignSFOUR, Lossless;
      WholeFours(MinCurrentPoints(now), AlignSFOUR(traceRecentPoints));
      WholeFours(MinCurrentPoints(now), AlignSFOUR(traceReserve + traceChunkPoints));
    }

    /** The nominal size in points: twelve more than the reserve fifteen minutes after the last
        position; before that the recent points, or the reserve and a chunk in whole
        fourStates, whichever is more, and sixteen. */
    lemma NominalExactly(now: int)
      requires Configured()
      ensures now - seenPosReliable > 900_000 ==> NominalCurrentPoints(now) == traceReserve + 12
      ensures now - seenPosReliable <= 900_000 ==>
        var n := NominalCurrentPoints(now) - 16;
        && traceRecentPoints <= n && traceReserve + traceChunkPoints <= n
        && (n == traceRecentPoints || n < traceReserve + traceChunkPoints + 4)
    {
      hide AlignSFOUR, Lossless;
      Aligned(traceRecentPoints);
      Aligned(traceReserve + 12);
    }

    // The nominal size, unless the points and the reserve need more, and some extra.
    function WantedPoints(now: int, extra: nat): int
      reads `seenPosReliable, `currentLen
      requires Configured()
    {
      var needed := AlignSFOUR(currentLen + traceReserve);
      var points := if NominalCurrentPoints(now) < needed then needed else NominalCurrentPoints(now);
      if extra > 0 then AlignSFOUR(points + extra) else points
    }

    /** resizeTraceCurrent keeps the points and the buffered position, and leaves room for
        the reserve. */
    method ResizeTraceCurrent(now: int, extra: nat, force: bool)
      requires Configured() && current.Length % SFOUR == 0
      requires current.Length > 0 ==> currentLen < current.Length
      modifies `current
      ensures current == old(current) || fresh(current)
      ensures current.Length % SFOUR == 0 && currentLen + traceReserve <= current.Length
      ensures current.Length == WantedPoints(now, extra)
      ensures force || old(current.Length) == 0 ==> fresh(current)
      ensures old(current.Length) > 0 ==> current[..currentLen + 1] == old(current[..currentLen + 1])
    {
      hide AlignSFOUR, NominalCurrentPoints, Lossless;
      NominalIsWhole(now);
      var newPoints := NominalCurrentPoints(now);
      var minPoints := AlignSFOUR(currentLen + traceReserve);
      if newPoints < minPoints {
        newPoints := minPoints;
      }
      if extra > 0 {
        newPoints := AlignSFOUR(newPoints + extra);
      }
      if newPoints == current.Length && current.Length > 0 && !force {
        return;
      }
      current := Copied(newPoints);
    }

    // A new array with the points and the buffered position.
    method Copied(newPoints: nat) returns (copy: array<Slot>)
      requires newPoints % SFOUR == 0 && current.Length % SFOUR == 0
      requires current.Length > 0 ==> currentLen < current.Length && currentLen < newPoints
      ensures fresh(copy) && copy.Length == newPoints
      ensures current.Length > 0 ==> copy[..currentLen + 1] == current[..currentLen + 1]
    {
      hide AlignSFOUR;
      copy := new Slot[newPoints](_ => Slot(0, [], []));
      if current.Length > 0 {
        var count := AlignSFOUR(currentLen + 1);
        AlignedFits(currentLen + 1, current.Length);
        AlignedFits(currentLen + 1, newPoints);
        CopySlots(copy, current[..], count);
        assert copy[..currentLen + 1] == copy[..count][..currentLen + 1] == current[..][..currentLen + 1];
      }
    }

    /** compressCurrent repartitions: the whole trace and the buffered position stay. */
    method CompressCurrent(now: int)
      requires Valid()
      modifies `chunks, `currentLen, `chunkRecompressed, current
      ensures Valid()
      ensures Content() == old(Content())
      ensures current.Length > 0 ==> current[currentLen] == old(current[currentLen])
      ensures old(currentLen) >= MinCurrentPoints(now) + SFOUR ==> MinCurrentPoints(now) <= currentLen < old(currentLen)
      ensures old(currentLen) < MinCurrentPoints(now) + SFOUR ==> currentLen == old(currentLen) && chunks == old(chunks)
      ensures |chunks| == old(|chunks|) || |chunks| == old(|chunks|) + 1
    {
      hide Unpacked, AllDescribe, Lossless, Sorted, NumStates, RoundDown, Follows, Taken;
      var keep := MinCurrentPoints(now);
      var chunkPoints := RoundDown(currentLen - keep);
      var newLen := currentLen - chunkPoints;
      if chunkPoints < SFOUR || newLen < keep {
        return;
      }
      ghost var packed, live := Unpacked(codec, chunks), current[..currentLen];
      ghost var slots := current[..];
      assert slots[..chunkPoints] == live[..chunkPoints];
      SortedParts(packed, live, chunkPoints);
      var res := CompressChunk(current[..], chunkPoints);
      assert slots[..res] == live[..res];
      DropFront(res);
      Repartitioned(packed, live, res);
      assert current[..currentLen + 1] == slots[res..|live| + 1];
      assert current[..currentLen] == current[..currentLen + 1][..currentLen] == live[res..];
      assert current[currentLen] == current[..currentLen + 1][currentLen];
    }

    // The end of compressCurrent and of tracePrune: whole fourStates leave the front.
    method DropFront(res: nat)
      requires res % SFOUR == 0 && res <= currentLen < current.Length && current.Length % SFOUR == 0
      modifies `currentLen, current
      ensures currentLen == old(currentLen) - res
      ensures current[..currentLen + 1] == old(current[res..currentLen + 1])
    {
      hide AlignSFOUR;
      currentLen := currentLen - res;
      var count := AlignSFOUR(currentLen + 1);
      RoomBehind(currentLen + 1, res, current.Length);
      ghost var was := current[..];
      MoveSlots(current, res, count);
      assert current[..currentLen + 1] == current[..count][..currentLen + 1] == was[res..res + currentLen + 1];
    }

    /** traceUsePosBuffered commits the buffered position. */
    method TraceUsePosBuffered() returns (used: bool)
      requires Valid()
      modifies `posBuffered, `traceLen, `currentLen
      ensures Valid() && !posBuffered && used == old(posBuffered)
      ensures Content() == old(Content()) + if used then [current[old(currentLen)]] else []
    {
      if posBuffered {
        ghost var live := current[..currentLen];
        assert Sorted(Content() + [current[currentLen]]);
        posBuffered := false;
        traceLen := traceLen + 1;
        currentLen := currentLen + 1;
        assert current[..currentLen] == old(current[..currentLen]) + [current[currentLen - 1]];
        assert Content() == old(Content()) + [current[currentLen - 1]];
        return true;
      }
      return false;
    }

    /** traceCleanup: nothing is left. */
    method TraceCleanup()
      requires Configured()
      modifies `chunks, `current, `currentLen, `traceLen, `posBuffered
      ensures Valid() && Content() == [] && traceLen == 0
      ensures current.Length == 0 && chunks == [] && currentLen == 0 && !posBuffered
      ensures fresh(current)
    {
      chunks, current, currentLen, traceLen, posBuffered := [], new Slot[0], 0, 0, false;
    }

    // Chunks that end too early are counted off the front.
    method ExpiredChunks(keepAfter: int) returns (deleted: nat)
      requires AllDescribe(codec, chunks)
      modifies `traceLen
      ensures LeadingExpired(chunks, deleted, keepAfter)
      ensures traceLen == old(traceLen) - NumStates(chunks[..deleted])
    {
      deleted := 0;
      while deleted < |chunks|
        invariant deleted <= |chunks|
        invariant forall k :: 0 <= k < deleted ==> chunks[k].lastTimestamp < keepAfter
        invariant traceLen == old(traceLen) - NumStates(chunks[..deleted])
      {
        if chunks[deleted].lastTimestamp >= keepAfter {
          break;
        }
        deleted := deleted + 1;
        traceLen := traceLen - chunks[deleted - 1].numStates;
        assert chunks[..deleted][..deleted - 1] == chunks[..deleted - 1];
      }
    }

    // FourStates of the live points that end too early.
    method ExpiredFourStates(keepAfter: int) returns (points: nat)
      requires currentLen <= current.Length
      ensures points % SFOUR == 0 && points <= currentLen
      ensures forall k :: 0 <= k < points && k % SFOUR == SFOUR - 1 ==> current[k].ts < keepAfter
      ensures points + SFOUR <= currentLen ==> current[points + SFOUR - 1].ts >= keepAfter
    {
      var deleteFs := 0;
      while deleteFs < currentLen / SFOUR
        invariant 0 <= deleteFs <= currentLen / SFOUR
        invariant forall k :: 0 <= k < deleteFs * SFOUR && k % SFOUR == SFOUR - 1 ==> current[k].ts < keepAfter
      {
        if current[deleteFs * SFOUR + SFOUR - 1].ts >= keepAfter {
          break;
        }
        deleteFs := deleteFs + 1;
      }
      points := deleteFs * SFOUR;
    }

    // The chunk part of tracePrune.
    method PruneChunks(keepAfter: int) returns (ghost dropped: nat, ghost gone: nat)
      requires Valid()
      modifies `chunks, `traceLen
      ensures Valid()
      ensures DropsExpired(old(Content()), dropped, keepAfter) && Content() == old(Content())[dropped..]
      ensures dropped % SFOUR == 0
      ensures chunks != [] ==> chunks[0].lastTimestamp >= keepAfter
      ensures LeadingExpired(old(chunks), gone, keepAfter) && chunks == old(chunks)[gone..]
      ensures dropped == NumStates(old(chunks)[..gone])
    {
      hide Unpacked, Lossless, Sorted, NumStates, DropsExpired, AllDescribe, Follows;
      ghost var was, live := chunks, current[..currentLen];
      var deleted := ExpiredChunks(keepAfter);
      gone := deleted;
      DroppedChunks(codec, was, deleted, live, keepAfter);
      dropped := |Unpacked(codec, was[..deleted])|;
      if deleted > 0 {
        ResizeTraceChunks(|chunks| - deleted);
      }
      assert chunks == was[deleted..];
      DroppedSorted(Unpacked(codec, was) + live, dropped, keepAfter);
      FollowsSuffix(Unpacked(codec, was) + live, dropped, keepAfter);
    }

    // How many live points are expired, in whole fourStates.
    method ExpiredPoints(keepAfter: int) returns (points: nat)
      requires Valid() && (chunks != [] ==> chunks[0].lastTimestamp >= keepAfter)
      ensures points % SFOUR == 0 && points <= currentLen && DropsExpired(Content(), 0, keepAfter)
      ensures points > 0 ==> Unpacked(codec, chunks) == [] && Sorted(current[..currentLen])
      ensures points > 0 ==> DropsExpired(current[..currentLen], points, keepAfter)
      ensures points < traceReserve <= currentLen ==> current[traceReserve - 1].ts >= keepAfter
      ensures points + traceReserve <= currentLen ==> current[points + traceReserve - 1].ts >= keepAfter
    {
      hide Unpacked, Lossless, Sorted, NumStates, DropsExpired, Follows, AllDescribe;
      ghost var live := current[..currentLen];
      points := ExpiredFourStates(keepAfter);
      ExpiredPrefix(codec, chunks, live, points, keepAfter);
      FewLeft(Unpacked(codec, chunks), live, points, traceReserve, keepAfter);
    }

    // The live part of tracePrune.
    method PruneCurrent(keepAfter: int) returns (ghost dropped: nat)
      requires Valid() && (chunks != [] ==> chunks[0].lastTimestamp >= keepAfter)
      modifies `currentLen, `traceLen, current
      ensures Valid()
      ensures DropsExpired(old(Content()), dropped, keepAfter) && Content() == old(Content())[dropped..]
      ensures dropped % SFOUR == 0
      ensures current.Length > 0 ==> current[currentLen] == old(current[currentLen])
      ensures FewExpired(keepAfter)
      ensures dropped > 0 ==> Unpacked(codec, chunks) == []
      ensures currentLen == old(currentLen) - dropped
    {
      hide Unpacked, Lossless, Sorted, NumStates, DropsExpired, Follows, AllDescribe;
      dropped := 0;
      ghost var live := current[..currentLen];
      var points := ExpiredPoints(keepAfter);
      if points >= traceReserve {
        dropped := points;
        DropLive(points, keepAfter);
      }
    }

    // The removal in tracePrune, of live points that are all there is of the trace.
    method DropLive(points: nat, ghost keepAfter: int)
      requires Valid() && points % SFOUR == 0 && 0 < points <= currentLen
      requires Unpacked(codec, chunks) == [] && Sorted(current[..currentLen])
      requires DropsExpired(current[..currentLen], points, keepAfter)
      modifies `currentLen, `traceLen, current
      ensures Valid()
      ensures Content() == old(Content())[points..] && DropsExpired(old(Content()), points, keepAfter)
      ensures currentLen == old(currentLen) - points && current[currentLen] == old(current[currentLen])
      ensures current[..currentLen] == old(current[points..currentLen])
    {
      hide Unpacked, Lossless, Sorted, NumStates, DropsExpired, Follows, AllDescribe;
      ghost var live := current[..currentLen];
      traceLen := traceLen - points;
      DropFront(points);
      assert current[..currentLen] == current[..currentLen + 1][..currentLen] == live[points..];
      assert current[currentLen] == current[..currentLen + 1][currentLen];
      PrunedLive(live, points, keepAfter);
    }

    // What pruning leaves: no expired chunk, and less of expired live points than the reserve.
    ghost predicate FewExpired(keepAfter: int)
      reads this, current
    {
      && (chunks != [] ==> chunks[0].lastTimestamp >= keepAfter)
      && (0 < traceReserve <= currentLen <= current.Length ==> current[traceReserve - 1].ts >= keepAfter)
    }

    // Both parts of tracePrune.
    method PruneParts(keepAfter: int) returns (ghost dropped: nat, ghost gone: nat)
      requires Valid()
      modifies `chunks, `currentLen, `traceLen, current
      ensures Valid()
      ensures DropsExpired(old(Content()), dropped, keepAfter) && Content() == old(Content())[dropped..]
      ensures dropped % SFOUR == 0
      ensures current.Length > 0 ==> current[currentLen] == old(current[currentLen])
      ensures FewExpired(keepAfter)
      ensures LeadingExpired(old(chunks), gone, keepAfter) && chunks == old(chunks)[gone..]
      ensures dropped == NumStates(old(chunks)[..gone]) + (old(currentLen) - currentLen)
      ensures currentLen <= old(currentLen) && (currentLen < old(currentLen) ==> chunks == [])
    {
      hide Unpacked, Lossless, NumStates, Follows, DropsExpired, Sorted, AllDescribe;
      ghost var was, wasChunks := Content(), chunks;
      ghost var first, second;
      first, gone := PruneChunks(keepAfter);
      second := PruneCurrent(keepAfter);
      dropped := first + second;
      if second > 0 {
        NoneLeft(codec, wasChunks, gone, keepAfter);
      }
      DroppedTwice(was, first, second, keepAfter);
      WholeFours(first, second);
    }

    /** tracePrune drops whole fourStates from the front, none of their points recent enough
        to be kept; what it keeps of the trace it keeps with the buffered position. */
    method TracePrune(now: int) returns (ghost dropped: nat, ghost gone: nat)
      requires Valid()
      modifies `chunks, `current, `currentLen, `traceLen, `posBuffered, current
      ensures Valid()
      ensures DropsExpired(old(Content()), dropped, now - keepTraces) && Content() == old(Content())[dropped..]
      ensures Content() != [] ==> dropped % SFOUR == 0 && posBuffered == old(posBuffered)
      ensures Content() != [] && old(current.Length) > 0 ==>
        current.Length > 0 && current[currentLen] == old(current[currentLen])
      ensures Content() != [] ==> Buffered() == old(Buffered())
      ensures current == old(current) || fresh(current)
      ensures Content() != [] ==> current.Length == old(current.Length)
      ensures old(currentLen > 0 && current[currentLen - 1].ts < now - keepTraces) ==> Content() == []
      ensures Content() != [] ==> PrunedRight(old(chunks), gone, dropped, now - keepTraces)
      ensures Content() != [] ==> |chunks| == old(|chunks|) - gone && currentLen <= old(currentLen)
      ensures gone == old(|chunks|) && |Content()| >= traceReserve ==>
        Content()[traceReserve - 1].ts >= now - keepTraces
      ensures Content() != [] && dropped <= NumStates(old(chunks)) ==>
        currentLen == old(currentLen) && FullArray(now) == old(FullArray(now))
    {
      hide Unpacked, Lossless, NumStates, Follows, DropsExpired, Sorted, AllDescribe;
      var keepAfter := now - keepTraces;
      gone := |chunks|;
      if traceLen <= 0 || (currentLen > 0 && current[currentLen - 1].ts < keepAfter) {
        dropped := DropAll(keepAfter);
      } else {
        dropped, gone := PruneParts(keepAfter);
        LiveKept(old(chunks), gone);
        ContentLength();
      }
    }

    // With all chunks gone nothing is left of their counts.
    lemma LiveKept(was: seq<StateChunk>, gone: nat)
      requires gone <= |was| && chunks == was[gone..]
      ensures chunks == [] ==> gone == |was| && NumStates(was[..gone]) == NumStates(was)
    {
      assert was[..|was|] == was;
    }

    // The first branch of tracePrune: every point is expired.
    method DropAll(ghost keepAfter: int) returns (ghost dropped: nat)
      requires Valid() && (traceLen <= 0 || (currentLen > 0 && current[currentLen - 1].ts < keepAfter))
      modifies `chunks, `current, `currentLen, `traceLen, `posBuffered
      ensures Valid() && Content() == [] && fresh(current)
      ensures DropsExpired(old(Content()), dropped, keepAfter) && old(Content())[dropped..] == []
    {
      hide Unpacked, Lossless, NumStates, Follows, DropsExpired, AllDescribe;
      ghost var was := Content();
      UnpackedLength(codec, chunks);
      assert currentLen > 0 ==> was[|was| - 1] == current[currentLen - 1];
      AllExpired(was, keepAfter);
      dropped := |was|;
      TraceCleanup();
    }

    // The loop of setTrace, reading the clock each time.
    method PackMost(source: seq<Slot>, len: nat) returns (p: nat)
      requires Configured() && chunks == [] && 0 < len <= |source| && Sorted(source[..len])
      modifies `chunks, `chunkRecompressed
      ensures p < len && AllDescribe(codec, chunks)
      ensures Unpacked(codec, chunks) == source[..p] && NumStates(chunks) == p
    {
      hide Lossless, Unpacked, NumStates, Sorted, AllDescribe;
      UnpackedNone(codec);
      NothingPacked(codec);
      p := 0;
      var remaining := len;
      var chunkSize := AlignSFOUR(traceChunkPoints);
      var clock: int := *;
      while remaining > chunkSize + MinCurrentPoints(clock)
        invariant p + remaining == len && remaining > 0
        invariant AllDescribe(codec, chunks) && Unpacked(codec, chunks) == source[..p] && NumStates(chunks) == p
        decreases remaining
      {
        NextPart(source, len, p, chunkSize);
        var res := CompressChunk(source[p..], chunkSize);
        NextPart(source, len, p, res);
        remaining := remaining - res;
        p := p + res;
        clock := *;
      }
    }

    // The end of setTrace: what is left goes to the live array, the buffered slot with it.
    method KeepRest(rest: seq<Slot>, remaining: nat, now: int)
      requires Configured() && current.Length == 0 && remaining > 0
      requires AlignSFOUR(remaining + 1) <= |rest|
      modifies `current, `currentLen
      ensures current.Length % SFOUR == 0 && currentLen == remaining < current.Length
      ensures current[..currentLen + 1] == rest[..remaining + 1]
    {
      hide Lossless;
      currentLen := remaining;
      ResizeTraceCurrent(now, 0, false);
      // The source gives up when the array is too small, which it never is.
      assert currentLen < current.Length;
      var count := AlignSFOUR(currentLen + 1);
      AlignedFits(currentLen + 1, current.Length);
      CopySlots(current, rest, count);
      assert current[..currentLen + 1] == current[..count][..currentLen + 1] == rest[..count][..currentLen + 1];
    }

    /** setTrace makes a trace of the given points, and ends, because every round of its loop
        packs at least a fourState. */
    method SetTrace(source: seq<Slot>, len: nat, now: int)
      requires Configured()
      requires len <= |source| && Sorted(source[..len]) && (len > 0 ==> len + SFOUR <= |source|)
      modifies this
      ensures Valid() && !posBuffered && traceLen == len
      ensures Content() == source[..len]
      ensures len > 0 ==> current.Length > 0 && current[currentLen] == source[len]
    {
      hide Lossless, Unpacked, NumStates, Sorted, AllDescribe;
      TraceCleanup();
      if len == 0 {
        assert source[..len] == [];
        return;
      }
      traceLen := len;
      var p := PackMost(source, len);
      KeepRest(source[p..], len - p, now);
      assert current[..currentLen] == current[..currentLen + 1][..currentLen] == source[p..len];
      assert current[currentLen] == current[..currentLen + 1][currentLen] == source[p..][..len - p + 1][len - p];
      assert source[..p] + source[p..len] == source[..len];
    }

    /** The end of traceAddInternal: a position is stored behind the live points, either to
        stay or as the buffered one. */
    method StorePosition(slot: Slot, now: int, posUsed: bool) returns (stored: bool, ghost kept: Slot)
      requires Valid() && Follows(Content(), slot.ts)
      modifies `current, `currentLen, `traceLen, `posBuffered, current
      ensures Valid()
      ensures kept.ts == slot.ts && kept.state == slot.state && (old(currentLen) % SFOUR == 0 ==> kept == slot)
      ensures stored <==> old(current.Length) == 0 || old(currentLen) + 1 < old(current.Length) - 1
      ensures Content() == old(Content()) + if stored && posUsed then [kept] else []
      ensures Buffered() == if !stored then old(Buffered()) else if posUsed then [] else [kept]
    {
      hide Lossless, Unpacked, NumStates, AllDescribe;
      ghost var was, live := Content(), current[..currentLen];
      if current.Length == 0 {
        ResizeTraceCurrent(now, 0, false);
        assert current[..currentLen] == live;
      }
      kept := slot;
      if currentLen + 1 >= current.Length - 1 {
        return false, kept;
      }
      var stateAll := if currentLen % SFOUR == 0 then slot.all else current[currentLen].all;
      kept := slot.(all := stateAll);
      current[currentLen] := slot.(all := stateAll);
      assert current[..currentLen] == live;
      if posUsed {
        posBuffered := false;
        traceLen := traceLen + 1;
        currentLen := currentLen + 1;
        assert current[..currentLen] == live + [current[currentLen - 1]];
        assert Content() == was + [current[currentLen - 1]];
      } else {
        posBuffered := true;
      }
      return true, kept;
    }

    // The buffered position, where there is one.
    ghost function Buffered(): seq<Slot>
      reads this, current
    {
      if posBuffered && currentLen < current.Length then [current[currentLen]] else []
    }

    // resizeTraceCurrent on a trace: nothing of it changes.
    method Reallocate(now: int, force: bool)
      requires Valid() && current.Length > 0
      modifies `current
      ensures Valid() && current.Length > 0 && (current == old(current) || fresh(current))
      ensures Content() == old(Content()) && Buffered() == old(Buffered())
      ensures current.Length == WantedPoints(now, 0) && (force ==> fresh(current))
    {
      hide Lossless, Unpacked, NumStates, AllDescribe, Sorted;
      ghost var kept := current[..currentLen + 1];
      ResizeTraceCurrent(now, 0, force);
      assert current[..currentLen] == current[..currentLen + 1][..currentLen] == kept[..currentLen];
      assert current[currentLen] == current[..currentLen + 1][currentLen] == kept[currentLen];
      assert old(current[..currentLen]) == kept[..currentLen];
    }

    // Enough live points that some can be packed.
    predicate Packable(now: int)
      reads `currentLen, `seenPosReliable
    {
      currentLen >= MinCurrentPoints(now) + SFOUR
    }

    // The passes of traceMaintenance that make room in the live array.
    method MakeRoom(now: int) returns (passes: nat)
      requires Valid() && current.Length > 0
      modifies `chunks, `currentLen, `chunkRecompressed, current
      ensures Valid() && Content() == old(Content()) && Buffered() == old(Buffered())
      ensures passes == 0 <==> old(currentLen) + traceReserve < current.Length
      ensures passes == 8 || currentLen + traceReserve < current.Length
      ensures passes == 0 ==> currentLen == old(currentLen) && chunks == old(chunks)
      ensures currentLen <= old(currentLen) && |chunks| >= old(|chunks|)
      ensures passes > 0 && old(Packable(now)) ==> currentLen < old(currentLen)
    {
      hide Lossless, Unpacked, NumStates, AllDescribe, Sorted, Follows;
      passes := 0;
      while passes < 8 && currentLen + traceReserve >= current.Length
        invariant Valid() && Content() == old(Content()) && Buffered() == old(Buffered())
        invariant passes <= 8 && currentLen <= old(currentLen) && |chunks| >= old(|chunks|)
        invariant passes == 0 ==> currentLen == old(currentLen) && chunks == old(chunks)
        invariant passes > 0 ==> old(currentLen) + traceReserve >= current.Length
        invariant passes > 0 && old(Packable(now)) ==> currentLen < old(currentLen)
      {
        CompressCurrent(now);
        passes := passes + 1;
      }
    }

    // The nominal size of the live array, as traceMaintenance restores it.
    method ToNominal(now: int)
      requires Valid() && current.Length > 0
      modifies `chunks, `current, `currentLen, `chunkRecompressed, current
      ensures Valid() && current.Length > 0 && (current == old(current) || fresh(current))
      ensures Content() == old(Content()) && Buffered() == old(Buffered())
      ensures current.Length >= NominalCurrentPoints(now)
      ensures currentLen <= old(currentLen) && |chunks| >= old(|chunks|)
      ensures old(current.Length) == NominalCurrentPoints(now) ==>
        current.Length == old(current.Length) && currentLen == old(currentLen) && chunks == old(chunks)
      ensures old(current.Length) > NominalCurrentPoints(now) && old(Packable(now)) ==> currentLen < old(currentLen)
    {
      hide Lossless, Unpacked, NumStates, AllDescribe, Sorted, Follows;
      if current.Length != NominalCurrentPoints(now) {
        if current.Length > NominalCurrentPoints(now) {
          CompressCurrent(now);
        }
        Reallocate(now, false);
      }
    }

    // No room for the reserve in a live array of full size, but points to pack.
    predicate FullArray(now: int)
      reads `currentLen, `current, `seenPosReliable
      requires Configured()
    {
      NominalCurrentPoints(now) <= current.Length <= currentLen + traceReserve && Packable(now)
    }

    predicate Idle(now: int)
      reads `seenPosReliable
    {
      now - seenPosReliable > CHUNK_DURATION
    }

    // Once an aircraft is idle its last chunk is finished.
    method PackIdle(now: int)
      requires Valid() && current.Length > 0
      modifies `chunks, `currentLen, `chunkRecompressed, current
      ensures Valid() && Content() == old(Content()) && Buffered() == old(Buffered())
      ensures currentLen <= old(currentLen) && |chunks| >= old(|chunks|)
      ensures Idle(now) && |chunks| > 0 ==> chunkRecompressed || |chunks| > old(|chunks|)
    {
      hide Lossless, Unpacked, NumStates, AllDescribe, Sorted, Follows;
      if now - seenPosReliable > CHUNK_DURATION && !chunkRecompressed && |chunks| > 0 {
        var count := |chunks|;
        CompressCurrent(now);
        if count == |chunks| {
          RecompressStateChunk(count - 1);
        }
      }
    }

    // The part of traceMaintenance behind the pruning, for a trace with live points.
    method Repack(now: int)
      requires Valid() && currentLen > 0
      modifies `chunks, `current, `currentLen, `chunkRecompressed, current
      ensures Valid() && Content() == old(Content()) && Buffered() == old(Buffered())
      ensures currentLen + traceReserve <= current.Length && NominalCurrentPoints(now) <= current.Length
      ensures currentLen <= old(currentLen)
      ensures old(FullArray(now)) ==> currentLen < old(currentLen)
      ensures Idle(now) && |chunks| > 0 ==> chunkRecompressed || |chunks| > old(|chunks|)
    {
      hide Lossless, Unpacked, NumStates, AllDescribe, Sorted, Follows, AlignSFOUR, NominalCurrentPoints;
      ToNominal(now);
      var passes := MakeRoom(now);
      if passes > 0 {
        Reallocate(now, true);
        if |chunks| > 0 {
          ResizeTraceChunks(|chunks|);
        }
      }
      PackIdle(now);
    }

    /** traceMaintenance, as far as it moves points. A whole turn of pruning, compressing,
        reallocating and recompressing drops expired points from the front and changes
        nothing else of the trace. What has to go goes: everything if the last live point is
        expired, and else the chunks that have ended; of an unchunked trace less stays expired
        than the reserve. Live points leave room for the reserve, a full array by packing. */
    method TraceMaintenance(now: int) returns (ghost dropped: nat, ghost gone: nat)
      requires Valid()
      modifies this, current
      ensures Valid()
      ensures DropsExpired(old(Content()), dropped, now - keepTraces) && Content() == old(Content())[dropped..]
      ensures Content() != [] ==> dropped % SFOUR == 0 && Buffered() == old(Buffered())
      ensures old(currentLen > 0 && current[currentLen - 1].ts < now - keepTraces) ==> Content() == []
      ensures Content() != [] ==> PrunedRight(old(chunks), gone, dropped, now - keepTraces)
      ensures gone == old(|chunks|) && |Content()| >= traceReserve ==>
        Content()[traceReserve - 1].ts >= now - keepTraces
      ensures currentLen > 0 ==>
        && currentLen + traceReserve <= current.Length && NominalCurrentPoints(now) <= current.Length
        && currentLen + 1 < current.Length - 1
      ensures dropped <= NumStates(old(chunks)) && Content() != [] && old(FullArray(now)) ==>
        currentLen < old(currentLen)
      ensures currentLen > 0 && Idle(now) && |chunks| > 0 ==> chunkRecompressed || |chunks| > old(|chunks|) - gone
    {
      hide Lossless, Unpacked, NumStates, AllDescribe, Sorted, Follows, DropsExpired, NominalCurrentPoints, FullArray,
        PrunedRight, LeadingExpired, Buffered, Content, Valid;
      NothingToDrop(now - keepTraces);
      FullHasPoints(now);
      if traceLen == 0 {
        dropped, gone := 0, 0;
        return;
      }
      dropped, gone := TracePrune(now);
      NothingToDrop(now - keepTraces);
      if traceLen == 0 {
        return;
      }
      if currentLen > 0 {
        Repack(now);
      }
    }

    lemma FullHasPoints(now: int)
      requires Valid()
      ensures FullArray(now) ==> currentLen > 0
    {
    }

    lemma NothingToDrop(time: int)
      requires Valid()
      ensures DropsExpired(Content(), 0, time) && Content()[0..] == Content()
      ensures |Content()| == traceLen && (traceLen == 0 ==> currentLen == 0)
      ensures currentLen <= current.Length && traceReserve >= SFOUR
    {
      NothingDropped(codec, chunks, current[..currentLen], time);
      ContentLength();
    }

    lemma ContentLength()
      requires Valid()
      ensures |Content()| == traceLen
      ensures chunks == [] && currentLen <= current.Length ==> Content() == current[..currentLen]
    {
      UnpackedLength(codec, chunks);
    }
  }

  // memcpy of whole fourStates to the front of an array.
  method CopySlots(target: array<Slot>, source: seq<Slot>, count: nat)
    requires count <= target.Length && count <= |source|
    modifies target
    ensures target[..count] == source[..count]
    ensures target[count..] == old(target[count..])
  {
    for i := 0 to count
      invariant target[..i] == source[..i]
      invariant target[i..] == old(target[i..])
    {
      target[i] := source[i];
    }
  }

  // memmove of whole fourStates to the front of the same array.
  method MoveSlots(slots: array<Slot>, from: nat, count: nat)
    requires from + count <= slots.Length
    modifies slots
    ensures slots[..count] == old(slots[from..from + count])
  {
    for i := 0 to count
      invariant slots[..i] == old(slots[from..from + i])
      invariant slots[i..] == old(slots[i..])
    {
      assert slots[from + i] == slots[i..][from] == old(slots[i..][from]) == old(slots[from + i]);
      slots[i] := slots[from + i];
    }
  }
}
