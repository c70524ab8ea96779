/** save_blob of globe_index.c: aircraft are written into a buffer, and the buffer is
    compressed into the file whenever the next aircraft does not fit. */
module BlobWriter {
  import opened Basics
  import opened TraceStore
  import opened StateBlob

  // zstd as save_blob uses it: one buffer at a time, and a bound for the room that the
  // compressed form of so many bytes may need.
  datatype Zstd = Zstd(compress: Bytes -> Bytes, decompress: Bytes -> Bytes, bound: nat -> nat)

  ghost predicate Packs(z: Zstd) {
    && (forall s: Bytes :: z.decompress(z.compress(s)) == s && |z.compress(s)| <= z.bound(|s|))
    && (forall m: nat, n: nat :: m <= n ==> z.bound(m) <= z.bound(n))
  }

  // load_blob: the frames of a file one after the other.
  function LoadBlob(l: Layout, z: Zstd, traceLastMax: nat, file: seq<Bytes>): Option<seq<Plane>> {
    if file == [] then Some([])
    else
      match LoadBlob(l, z, traceLastMax, file[..|file| - 1])
      case None => None
      case Some(earlier) =>
        match LoadAircrafts(l, traceLastMax, z.decompress(file[|file| - 1]))
        case None => None
        case Some(last) => Some(earlier + last)
  }

  // ------------------------------------------------------------------- cut into frames

  // The aircraft of a frame, and the size of the buffer they are written into.
  datatype Frame = Frame(planes: seq<SizedPlane>, alloc: nat)

  // Frames that are on disk, and what waits in the buffer.
  datatype Progress = Progress(frames: seq<Frame>, pending: seq<SizedPlane>, alloc: nat)

  function FrameBytes(l: Layout, planes: seq<SizedPlane>): Bytes {
    Records(l, planes) + l.u64(STATE_SAVE_MAGIC_END)
  }

  function After(l: Layout, p: Progress, a: SizedPlane, traceLastMax: nat): Progress {
    var size := SizeState(l, a, traceLastMax);
    if |Records(l, p.pending)| + size > p.alloc then
      Progress(p.frames + [Frame(p.pending, p.alloc)], [a], if size > p.alloc then 2 * size else p.alloc)
    else p.(pending := p.pending + [a])
  }

  function ProgressAt(l: Layout, planes: seq<SizedPlane>, n: nat, traceLastMax: nat, chunkSize: nat): Progress
    requires n <= |planes|
  {
    if n == 0 then Progress([], [], chunkSize)
    else After(l, ProgressAt(l, planes, n - 1, traceLastMax, chunkSize), planes[n - 1], traceLastMax)
  }

  function AllFrames(p: Progress): seq<Frame> {
    p.frames + [Frame(p.pending, p.alloc)]
  }

  // The frames of a blob.
  function Frames(l: Layout, planes: seq<SizedPlane>, traceLastMax: nat, chunkSize: nat): seq<Frame> {
    AllFrames(ProgressAt(l, planes, |planes|, traceLastMax, chunkSize))
  }

  function Joined(frames: seq<Frame>): seq<SizedPlane> {
    if frames == [] then [] else Joined(frames[..|frames| - 1]) + frames[|frames| - 1].planes
  }

  // A frame is begun by an aircraft that did not fit behind the frame before, and only an
  // aircraft that is too large for the whole buffer makes the buffer grow.
  predicate StartsAfter(l: Layout, before: Frame, next: Frame, traceLastMax: nat) {
    next.planes != [] &&
    var size := SizeState(l, next.planes[0], traceLastMax);
    |Records(l, before.planes)| + size > before.alloc &&
    next.alloc == if size > before.alloc then 2 * size else before.alloc
  }

  /** Frames hold all aircraft in order, and each fits its buffer with its end magic. */
  ghost predicate WellCut(l: Layout, planes: seq<SizedPlane>, traceLastMax: nat, chunkSize: nat, frames: seq<Frame>) {
    && frames != [] && Joined(frames) == planes && frames[0].alloc == chunkSize
    && (forall k :: 0 <= k < |frames| ==> |FrameBytes(l, frames[k].planes)| <= frames[k].alloc)
    && (forall k :: 0 < k < |frames| ==> StartsAfter(l, frames[k - 1], frames[k], traceLastMax))
  }

  lemma RecordsAppend(l: Layout, planes: seq<SizedPlane>, a: SizedPlane)
    ensures Records(l, planes + [a]) == Records(l, planes) + Record(l, a)
  {
    assert (planes + [a])[..|planes|] == planes;
  }

  lemma NoRecords(l: Layout)
    ensures Records(l, []) == []
  {
  }

  lemma JoinedAppend(frames: seq<Frame>, f: Frame)
    ensures Joined(frames + [f]) == Joined(frames) + f.planes
  {
    assert (frames + [f])[..|frames|] == frames;
  }

  // The aircraft joins the last frame.
  lemma JoinsLast(l: Layout, planes: seq<SizedPlane>, p: Progress, a: SizedPlane, traceLastMax: nat, chunkSize: nat)
    requires WellCut(l, planes, traceLastMax, chunkSize, AllFrames(p))
    requires p.pending == [] ==> p.frames == []
    requires |FrameBytes(l, p.pending + [a])| <= p.alloc
    ensures WellCut(l, planes + [a], traceLastMax, chunkSize, AllFrames(p.(pending := p.pending + [a])))
  {
    hide FrameBytes, SizeState, Records, Joined;
    var q := p.(pending := p.pending + [a]);
    JoinedAppend(p.frames, Frame(p.pending, p.alloc));
    JoinedAppend(q.frames, Frame(q.pending, q.alloc));
    assert forall k :: 0 <= k < |p.frames| ==> AllFrames(q)[k] == AllFrames(p)[k];
    assert AllFrames(p)[|p.frames|] == Frame(p.pending, p.alloc);
  }

  // The aircraft begins another frame.
  lemma BeginsNext(l: Layout, planes: seq<SizedPlane>, p: Progress, a: SizedPlane, alloc: nat, traceLastMax: nat,
                   chunkSize: nat)
    requires WellCut(l, planes, traceLastMax, chunkSize, AllFrames(p))
    requires StartsAfter(l, Frame(p.pending, p.alloc), Frame([a], alloc), traceLastMax)
    requires |FrameBytes(l, [a])| <= alloc
    ensures WellCut(l, planes + [a], traceLastMax, chunkSize, AllFrames(p) + [Frame([a], alloc)])
  {
    hide FrameBytes, StartsAfter, Joined;
    JoinedAppend(AllFrames(p), Frame([a], alloc));
    assert AllFrames(p)[|p.frames|] == Frame(p.pending, p.alloc);
  }

  // One more aircraft keeps the frames well cut.
  lemma StaysWellCut(l: Layout, planes: seq<SizedPlane>, p: Progress, a: SizedPlane, traceLastMax: nat, chunkSize: nat)
    requires Faithful(l) && Writable(l, a, traceLastMax)
    requires WellCut(l, planes, traceLastMax, chunkSize, AllFrames(p))
    requires p.pending == [] ==> p.frames == []
    ensures WellCut(l, planes + [a], traceLastMax, chunkSize, AllFrames(After(l, p, a, traceLastMax)))
    ensures After(l, p, a, traceLastMax).pending != []
  {
    hide Faithful, Writable, SizeState, Record, Records, WellCut;
    RecordFits(l, a, traceLastMax);
    U64Size(l);
    NoRecords(l);
    RecordsAppend(l, p.pending, a);
    RecordsAppend(l, [], a);
    assert [] + [a] == [a];
    var size := SizeState(l, a, traceLastMax);
    if |Records(l, p.pending)| + size > p.alloc {
      BeginsNext(l, planes, p, a, if size > p.alloc then 2 * size else p.alloc, traceLastMax, chunkSize);
    } else {
      JoinsLast(l, planes, p, a, traceLastMax, chunkSize);
    }
  }

  /** However aircraft are cut into frames, none is lost, and each frame fits its buffer. */
  lemma {:induction false} ProgressWellCut(l: Layout, planes: seq<SizedPlane>, n: nat, traceLastMax: nat,
                                           chunkSize: nat)
    requires Faithful(l) && chunkSize >= 8 && n <= |planes|
    requires forall k :: 0 <= k < |planes| ==> Writable(l, planes[k], traceLastMax)
    ensures var p := ProgressAt(l, planes, n, traceLastMax, chunkSize);
      WellCut(l, planes[..n], traceLastMax, chunkSize, AllFrames(p)) && (p.pending == [] ==> p.frames == [])
  {
    hide Faithful, Writable, WellCut, Record, SizeState, After, AllFrames, Records, FrameBytes;
    if n == 0 {
      FirstFrame(l, traceLastMax, chunkSize);
      assert planes[..0] == [];
    } else {
      ProgressWellCut(l, planes, n - 1, traceLastMax, chunkSize);
      StaysWellCut(l, planes[..n - 1], ProgressAt(l, planes, n - 1, traceLastMax, chunkSize), planes[n - 1],
          traceLastMax, chunkSize);
      assert planes[..n - 1] + [planes[n - 1]] == planes[..n];
    }
  }

  lemma FirstFrame(l: Layout, traceLastMax: nat, chunkSize: nat)
    requires Faithful(l) && chunkSize >= 8
    ensures WellCut(l, [], traceLastMax, chunkSize, AllFrames(Progress([], [], chunkSize)))
  {
    U64Size(l);
    NoRecords(l);
    JoinedAppend([], Frame([], chunkSize));
  }

  lemma FramesWellCut(l: Layout, planes: seq<SizedPlane>, traceLastMax: nat, chunkSize: nat)
    requires Faithful(l) && chunkSize >= 8
    requires forall k :: 0 <= k < |planes| ==> Writable(l, planes[k], traceLastMax)
    ensures WellCut(l, planes, traceLastMax, chunkSize, Frames(l, planes, traceLastMax, chunkSize))
  {
    hide Faithful, Writable, WellCut, ProgressAt;
    ProgressWellCut(l, planes, |planes|, traceLastMax, chunkSize);
    assert planes[..|planes|] == planes;
  }

  lemma {:induction false} FramesStay(l: Layout, planes: seq<SizedPlane>, m: nat, n: nat, traceLastMax: nat,
                                      chunkSize: nat)
    requires m <= n <= |planes|
    ensures ProgressAt(l, planes, m, traceLastMax, chunkSize).frames <=
            ProgressAt(l, planes, n, traceLastMax, chunkSize).frames
    decreases n
  {
    hide SizeState, Records;
    if m < n {
      FramesStay(l, planes, m, n - 1, traceLastMax, chunkSize);
    }
  }

  // ------------------------------------------------------------------ room in the file

  // The buffer has its first size, or twice what some aircraft needs that did not fit it.
  ghost predicate Grown(l: Layout, planes: seq<SizedPlane>, traceLastMax: nat, chunkSize: nat, alloc: nat) {
    alloc == chunkSize ||
    exists k :: 0 <= k < |planes| && SizeState(l, planes[k], traceLastMax) > chunkSize &&
      alloc == 2 * SizeState(l, planes[k], traceLastMax)
  }

  lemma FirstIsGrown(l: Layout, planes: seq<SizedPlane>, traceLastMax: nat, chunkSize: nat)
    ensures Grown(l, planes, traceLastMax, chunkSize, chunkSize)
  {
  }

  lemma StaysGrown(l: Layout, planes: seq<SizedPlane>, k: nat, p: Progress, traceLastMax: nat, chunkSize: nat)
    requires k < |planes| && Grown(l, planes, traceLastMax, chunkSize, p.alloc)
    ensures Grown(l, planes, traceLastMax, chunkSize, After(l, p, planes[k], traceLastMax).alloc)
    ensures After(l, p, planes[k], traceLastMax).frames <= AllFrames(p)
  {
    hide SizeState, Records;
  }

  ghost predicate FramesGrown(l: Layout, planes: seq<SizedPlane>, traceLastMax: nat, chunkSize: nat,
                              frames: seq<Frame>) {
    forall k :: 0 <= k < |frames| ==> Grown(l, planes, traceLastMax, chunkSize, frames[k].alloc)
  }

  lemma {:induction false} AllGrown(l: Layout, planes: seq<SizedPlane>, n: nat, traceLastMax: nat, chunkSize: nat)
    requires n <= |planes|
    ensures FramesGrown(l, planes, traceLastMax, chunkSize,
        AllFrames(ProgressAt(l, planes, n, traceLastMax, chunkSize)))
  {
    hide SizeState, Records, Grown, After;
    if n == 0 {
      FirstIsGrown(l, planes, traceLastMax, chunkSize);
    } else {
      var p := ProgressAt(l, planes, n - 1, traceLastMax, chunkSize);
      AllGrown(l, planes, n - 1, traceLastMax, chunkSize);
      assert AllFrames(p)[|p.frames|].alloc == p.alloc;
      StaysGrown(l, planes, n - 1, p, traceLastMax, chunkSize);
    }
  }

  // The output buffer keeps the size that it was given for the first buffer.
  predicate Fits(l: Layout, z: Zstd, chunkSize: nat, f: Frame) {
    |z.compress(FrameBytes(l, f.planes))| <= z.bound(chunkSize)
  }

  ghost predicate AllFit(l: Layout, z: Zstd, planes: seq<SizedPlane>, traceLastMax: nat, chunkSize: nat) {
    forall k :: 0 <= k < |Frames(l, planes, traceLastMax, chunkSize)| ==>
      Fits(l, z, chunkSize, Frames(l, planes, traceLastMax, chunkSize)[k])
  }

  lemma FirstSizeFits(l: Layout, z: Zstd, chunkSize: nat, f: Frame)
    requires Packs(z) && f.alloc == chunkSize && |FrameBytes(l, f.planes)| <= f.alloc
    ensures Fits(l, z, chunkSize, f)
  {
    hide FrameBytes;
    var bytes := FrameBytes(l, f.planes);
    assert z.bound(|bytes|) <= z.bound(chunkSize);
  }

  /** When every aircraft fits the buffer as it is, so does every compressed frame. */
  lemma WithoutGrowth(l: Layout, z: Zstd, planes: seq<SizedPlane>, traceLastMax: nat, chunkSize: nat)
    requires Faithful(l) && Packs(z) && chunkSize >= 8
    requires forall k :: 0 <= k < |planes| ==>
      Writable(l, planes[k], traceLastMax) && SizeState(l, planes[k], traceLastMax) <= chunkSize
    ensures AllFit(l, z, planes, traceLastMax, chunkSize)
  {
    hide Faithful, Packs, Writable, SizeState, FrameBytes;
    var frames := Frames(l, planes, traceLastMax, chunkSize);
    ProgressWellCut(l, planes, |planes|, traceLastMax, chunkSize);
    AllGrown(l, planes, |planes|, traceLastMax, chunkSize);
    forall k | 0 <= k < |frames|
      ensures Fits(l, z, chunkSize, frames[k])
    {
      assert Grown(l, planes, traceLastMax, chunkSize, frames[k].alloc);
      FirstSizeFits(l, z, chunkSize, frames[k]);
    }
  }

  // A frame that does not fit fails the save, and it took a buffer that had grown.
  lemma Refused(l: Layout, z: Zstd, planes: seq<SizedPlane>, k: nat, traceLastMax: nat, chunkSize: nat)
    requires Faithful(l) && Packs(z) && chunkSize >= 8
    requires forall i :: 0 <= i < |planes| ==> Writable(l, planes[i], traceLastMax)
    requires var frames := Frames(l, planes, traceLastMax, chunkSize);
      k < |frames| && !Fits(l, z, chunkSize, frames[k])
    ensures !AllFit(l, z, planes, traceLastMax, chunkSize)
    ensures Frames(l, planes, traceLastMax, chunkSize)[k].alloc > 2 * chunkSize
  {
    hide Faithful, Packs, Writable, SizeState, FrameBytes, Fits, ProgressAt, Joined, StartsAfter;
    ProgressWellCut(l, planes, |planes|, traceLastMax, chunkSize);
    AllGrown(l, planes, |planes|, traceLastMax, chunkSize);
    var f := Frames(l, planes, traceLastMax, chunkSize)[k];
    if f.alloc == chunkSize {
      FirstSizeFits(l, z, chunkSize, f);
    }
  }

  // The buffer that is flushed before aircraft n is a frame of the blob.
  lemma FlushedFrame(l: Layout, planes: seq<SizedPlane>, n: nat, traceLastMax: nat, chunkSize: nat)
    requires n < |planes|
    requires var p := ProgressAt(l, planes, n, traceLastMax, chunkSize);
      |Records(l, p.pending)| + SizeState(l, planes[n], traceLastMax) > p.alloc
    ensures var p, frames :=
        ProgressAt(l, planes, n, traceLastMax, chunkSize), Frames(l, planes, traceLastMax, chunkSize);
      |p.frames| < |frames| && frames[|p.frames|] == Frame(p.pending, p.alloc)
  {
    hide SizeState, Records;
    var p, q := ProgressAt(l, planes, n, traceLastMax, chunkSize),
        ProgressAt(l, planes, n + 1, traceLastMax, chunkSize);
    assert q.frames == p.frames + [Frame(p.pending, p.alloc)];
    assert q.frames[|p.frames|] == Frame(p.pending, p.alloc);
    FramesStay(l, planes, n + 1, |planes|, traceLastMax, chunkSize);
  }

  // What waits in the buffer leaves room for the end magic.
  lemma Room(l: Layout, planes: seq<SizedPlane>, n: nat, traceLastMax: nat, chunkSize: nat)
    requires Faithful(l) && chunkSize >= 8 && n <= |planes|
    requires forall k :: 0 <= k < |planes| ==> Writable(l, planes[k], traceLastMax)
    ensures var p := ProgressAt(l, planes, n, traceLastMax, chunkSize);
      |Records(l, p.pending)| + 8 <= p.alloc && Grown(l, planes, traceLastMax, chunkSize, p.alloc)
  {
    hide Faithful, Writable, SizeState, Records, ProgressAt, Joined, StartsAfter, Grown;
    ProgressWellCut(l, planes, n, traceLastMax, chunkSize);
    AllGrown(l, planes, n, traceLastMax, chunkSize);
    U64Size(l);
    var p := ProgressAt(l, planes, n, traceLastMax, chunkSize);
    assert AllFrames(p)[|p.frames|] == Frame(p.pending, p.alloc);
  }

  // ------------------------------------------------------------------- reading it back

  ghost predicate OnDisk(l: Layout, z: Zstd, chunkSize: nat, frames: seq<Frame>, file: seq<Bytes>) {
    |file| == |frames| && forall k :: 0 <= k < |frames| ==>
      Fits(l, z, chunkSize, frames[k]) && file[k] == z.compress(FrameBytes(l, frames[k].planes))
  }

  lemma {:induction false} FramesLoaded(l: Layout, z: Zstd, traceLastMax: nat, chunkSize: nat, frames: seq<Frame>,
                                        file: seq<Bytes>)
    requires Faithful(l) && Packs(z) && OnDisk(l, z, chunkSize, frames, file)
    requires AllWritable(l, Joined(frames), traceLastMax)
    ensures LoadBlob(l, z, traceLastMax, file) == Some(Images(Joined(frames)))
  {
    hide Faithful, Packs, Fits, LoadAircrafts, Records, Writable, Image;
    if frames != [] {
      var n := |frames| - 1;
      var earlier, last := Joined(frames[..n]), frames[n].planes;
      assert Joined(frames) == earlier + last;
      assert forall k :: 0 <= k < |earlier| ==> (earlier + last)[k] == earlier[k];
      assert forall k :: 0 <= k < |last| ==> (earlier + last)[|earlier| + k] == last[k];
      FramesLoaded(l, z, traceLastMax, chunkSize, frames[..n], file[..n]);
      Unpacked(z, FrameBytes(l, last));
      FrameRoundTrip(l, last, traceLastMax);
      ImagesConcat(earlier, last);
    }
  }

  lemma Unpacked(z: Zstd, bytes: Bytes)
    requires Packs(z)
    ensures z.decompress(z.compress(bytes)) == bytes
  {
  }

  // ------------------------------------------------------------------------- writing

  // memcpySize into the buffer.
  method Write(buf: array<bv8>, p: nat, bytes: Bytes) returns (q: nat)
    requires p + |bytes| <= buf.Length
    modifies buf
    ensures q == p + |bytes| && buf[..q] == old(buf[..p]) + bytes
  {
    for i := 0 to |bytes|
      invariant buf[..p + i] == old(buf[..p]) + bytes[..i]
    {
      buf[p + i] := bytes[i];
    }
    q := p + |bytes|;
  }

  method WriteChunk(l: Layout, buf: array<bv8>, p: nat, chunk: StateChunk) returns (q: nat)
    requires p + |ChunkBytes(l, chunk)| <= buf.Length
    modifies buf
    ensures q == p + |ChunkBytes(l, chunk)| && buf[..q] == old(buf[..p]) + ChunkBytes(l, chunk)
  {
    q := Write(buf, p, l.head(HeadOf(chunk)));
    q := Write(buf, q, chunk.compressed);
    q := Write(buf, q, seq(RoundUp8(|chunk.compressed|) - |chunk.compressed|, _ => 0));
  }

  method WriteChunks(l: Layout, buf: array<bv8>, p: nat, chunks: seq<StateChunk>) returns (q: nat)
    requires p + |ChunksBytes(l, chunks)| <= buf.Length
    modifies buf
    ensures q == p + |ChunksBytes(l, chunks)| && buf[..q] == old(buf[..p]) + ChunksBytes(l, chunks)
  {
    hide ChunkBytes;
    q := p;
    for k := 0 to |chunks|
      invariant q + |ChunksBytes(l, chunks[k..])| == p + |ChunksBytes(l, chunks)| <= buf.Length
      invariant buf[..q] + ChunksBytes(l, chunks[k..]) == old(buf[..p]) + ChunksBytes(l, chunks)
    {
      assert chunks[k..][1..] == chunks[k + 1..];
      q := WriteChunk(l, buf, q, chunks[k]);
    }
  }

  method WriteTrace(l: Layout, buf: array<bv8>, p: nat, copy: SizedPlane) returns (q: nat)
    requires p + |TraceBytes(l, copy)| <= buf.Length
    modifies buf
    ensures q == p + |TraceBytes(l, copy)| && buf[..q] == old(buf[..p]) + TraceBytes(l, copy)
  {
    hide ChunksBytes, StateBlob.Whole;
    q := Write(buf, p, l.u64(l.fourStateSize));
    q := WriteChunks(l, buf, q, copy.chunks);
    q := Write(buf, q, l.slots(StateBlob.Whole(copy)));
    q := WriteLast(l, buf, q, copy.traceLast);
  }

  method WriteLast(l: Layout, buf: array<bv8>, p: nat, traceLast: Option<seq<Slot>>) returns (q: nat)
    requires p + |LastBytes(l, traceLast)| <= buf.Length
    modifies buf
    ensures q == p + |LastBytes(l, traceLast)| && buf[..q] == old(buf[..p]) + LastBytes(l, traceLast)
  {
    q := p;
    if traceLast.Some? {
      q := Write(buf, q, l.u64(|traceLast.value|));
      q := Write(buf, q, l.slots(traceLast.value));
    }
  }

  // What save_blob writes of one aircraft.
  method WriteRecord(l: Layout, buf: array<bv8>, p: nat, copy: SizedPlane) returns (q: nat)
    requires p + |Record(l, copy)| <= buf.Length
    modifies buf
    ensures q == p + |Record(l, copy)| && buf[..q] == old(buf[..p]) + Record(l, copy)
  {
    hide TraceBytes;
    q := Write(buf, p, l.u64(STATE_SAVE_MAGIC));
    q := Write(buf, q, l.u64(l.craftSize));
    q := Write(buf, q, l.craft(CraftOf(copy)));
    if copy.traceLen > 0 {
      q := WriteTrace(l, buf, q, copy);
    }
  }

  // The end of a frame: its magic, and its compressed form if that fits the output buffer.
  method Flush(l: Layout, z: Zstd, buf: array<bv8>, p: nat, zstOutAlloc: nat) returns (packed: Option<Bytes>)
    requires Faithful(l) && p + 8 <= buf.Length
    modifies buf
    ensures var bytes := old(buf[..p]) + l.u64(STATE_SAVE_MAGIC_END);
      packed == if |z.compress(bytes)| <= zstOutAlloc then Some(z.compress(bytes)) else None
  {
    U64Size(l);
    var q := Write(buf, p, l.u64(STATE_SAVE_MAGIC_END));
    packed := if |z.compress(buf[..q])| <= zstOutAlloc then Some(z.compress(buf[..q])) else None;
  }

  function CommittedAll(planes: seq<SizedPlane>): seq<SizedPlane>
    requires forall k :: 0 <= k < |planes| ==> Sized(Committed(planes[k]))
  {
    seq(|planes|, k requires 0 <= k < |planes| => Committed(planes[k]))
  }

  ghost predicate Savable(l: Layout, planes: seq<SizedPlane>, traceLastMax: nat) {
    forall k :: 0 <= k < |planes| ==> Sized(Committed(planes[k])) && Writable(l, Committed(planes[k]), traceLastMax)
  }

  lemma CopiesWritable(l: Layout, planes: seq<SizedPlane>, traceLastMax: nat)
    requires Savable(l, planes, traceLastMax)
    ensures |CommittedAll(planes)| == |planes| && AllWritable(l, CommittedAll(planes), traceLastMax)
    ensures forall k :: 0 <= k < |planes| ==> CommittedAll(planes)[k] == Committed(planes[k])
    ensures forall k :: 0 <= k < |planes| ==>
        Sized(Committed(planes[k])) && Writable(l, CommittedAll(planes)[k], traceLastMax)
  {
    hide Writable;
  }

  lemma NothingYet(l: Layout, z: Zstd, planes: seq<SizedPlane>, traceLastMax: nat, chunkSize: nat)
    ensures ProgressAt(l, planes, 0, traceLastMax, chunkSize) == Progress([], [], chunkSize)
    ensures Records(l, []) == [] && OnDisk(l, z, chunkSize, [], [])
  {
  }

  // The next step, and the frame that the buffer is if it is flushed before it.
  lemma NextAircraft(l: Layout, planes: seq<SizedPlane>, n: nat, traceLastMax: nat, chunkSize: nat)
    requires n < |planes|
    ensures var p, a := ProgressAt(l, planes, n, traceLastMax, chunkSize), planes[n];
      && ProgressAt(l, planes, n + 1, traceLastMax, chunkSize) == After(l, p, a, traceLastMax)
      && Records(l, p.pending + [a]) == Records(l, p.pending) + Record(l, a) && Records(l, [a]) == Record(l, a)
    ensures var p, frames :=
        ProgressAt(l, planes, n, traceLastMax, chunkSize), Frames(l, planes, traceLastMax, chunkSize);
      |Records(l, p.pending)| + SizeState(l, planes[n], traceLastMax) > p.alloc ==>
        |p.frames| < |frames| && frames[|p.frames|] == Frame(p.pending, p.alloc)
  {
    hide Records, SizeState, Record;
    var p, a := ProgressAt(l, planes, n, traceLastMax, chunkSize), planes[n];
    NoRecords(l);
    RecordsAppend(l, p.pending, a);
    RecordsAppend(l, [], a);
    assert [] + [a] == [a];
    if |Records(l, p.pending)| + SizeState(l, planes[n], traceLastMax) > p.alloc {
      FlushedFrame(l, planes, n, traceLastMax, chunkSize);
    }
  }

  lemma DiskGrows(l: Layout, z: Zstd, chunkSize: nat, frames: seq<Frame>, file: seq<Bytes>, f: Frame)
    requires OnDisk(l, z, chunkSize, frames, file) && Fits(l, z, chunkSize, f)
    ensures OnDisk(l, z, chunkSize, frames + [f], file + [z.compress(FrameBytes(l, f.planes))])
  {
    hide Fits, FrameBytes;
  }

  lemma Saved(l: Layout, z: Zstd, planes: seq<SizedPlane>, traceLastMax: nat, chunkSize: nat, file: seq<Bytes>)
    requires Faithful(l) && Packs(z) && chunkSize >= 8 && AllWritable(l, planes, traceLastMax)
    requires OnDisk(l, z, chunkSize, Frames(l, planes, traceLastMax, chunkSize), file)
    ensures AllFit(l, z, planes, traceLastMax, chunkSize)
    ensures LoadBlob(l, z, traceLastMax, file) == Some(Images(planes))
  {
    hide Faithful, Packs, Writable, Fits, LoadBlob, Images, ProgressAt, FrameBytes, StartsAfter;
    ProgressWellCut(l, planes, |planes|, traceLastMax, chunkSize);
    assert planes[..|planes|] == planes;
    FramesLoaded(l, z, traceLastMax, chunkSize, Frames(l, planes, traceLastMax, chunkSize), file);
  }

  /** What a save keeps of an aircraft: its trace in the same chunks and live points, a
      buffered position as the last of them, and nothing but the rest of it if it has none. */
  ghost predicate SameAircraft(a: Plane, loaded: Plane) {
    var more := if a.posBuffered then 1 else 0;
    && loaded.rest == a.rest && !loaded.posBuffered
    && loaded.traceLen == a.traceLen + more
    && (a.traceLen + more > 0 ==>
         && loaded.chunks == a.chunks && loaded.traceLast == a.traceLast
         && loaded.currentLen == a.currentLen + more && loaded.currentLen <= |a.current|
         && loaded.currentLen <= |loaded.current|
         && loaded.current[..loaded.currentLen] == a.current[..a.currentLen + more])
    && (a.traceLen + more == 0 ==> loaded.chunks == [] && loaded.currentLen == 0 && loaded.traceLast == None)
  }

  ghost predicate SameAll(planes: seq<Plane>, loaded: seq<Plane>) {
    |loaded| == |planes| && forall k :: 0 <= k < |planes| ==> SameAircraft(planes[k], loaded[k])
  }

  lemma ImageIsSame(a: Plane)
    requires Sized(Committed(a))
    ensures SameAircraft(a, Image(Committed(a)))
  {
  }

  lemma {:induction false} ImageAt(planes: seq<SizedPlane>, k: nat)
    requires k < |planes|
    ensures |Images(planes)| == |planes| && Images(planes)[k] == Image(planes[k])
  {
    hide Image;
    if |planes| > 1 {
      ImageAt(planes[1..], if k > 0 then k - 1 else 0);
    }
  }

  lemma LoadedAreSame(planes: seq<SizedPlane>)
    requires forall k :: 0 <= k < |planes| ==> Sized(Committed(planes[k]))
    ensures SameAll(planes, Images(CommittedAll(planes)))
  {
    hide Image, Committed, SameAircraft;
    forall k | 0 <= k < |planes|
      ensures |Images(CommittedAll(planes))| == |planes|
      ensures SameAircraft(planes[k], Images(CommittedAll(planes))[k])
    {
      ImageAt(CommittedAll(planes), k);
      ImageIsSame(planes[k]);
    }
  }

  /** save_blob: the aircraft are saved exactly when every frame's compressed form fits the
      output buffer, which is sized once, before the first frame; that is certain when every
      aircraft fits the buffer as it is. Reading then gives every aircraft once, in order.
      When the save fails the buffer starts larger the next time. */
  method SaveBlob(l: Layout, z: Zstd, planes: seq<SizedPlane>, traceLastMax: nat, stateChunkSize: nat)
      returns (file: Option<seq<Bytes>>, newChunkSize: nat)
    requires Faithful(l) && Packs(z) && stateChunkSize >= 8 && Savable(l, planes, traceLastMax)
    ensures file.Some? <==> AllFit(l, z, CommittedAll(planes), traceLastMax, stateChunkSize)
    ensures file.Some? ==>
      var loaded := LoadBlob(l, z, traceLastMax, file.value); loaded.Some? && SameAll(planes, loaded.value)
    ensures var frames := Frames(l, CommittedAll(planes), traceLastMax, stateChunkSize);
      WellCut(l, CommittedAll(planes), traceLastMax, stateChunkSize, frames) &&
      (file.Some? ==> OnDisk(l, z, stateChunkSize, frames, file.value))
    ensures Grown(l, CommittedAll(planes), traceLastMax, stateChunkSize, newChunkSize)
    ensures file == None ==> newChunkSize > 2 * stateChunkSize
  {
    hide Faithful, Packs, Writable, Records, SizeState, Record, LoadBlob, Images, WellCut, Grown, AllFit, Joined,
        ProgressAt, OnDisk, CommittedAll, SameAll;
    ghost var copies := CommittedAll(planes);
    CopiesWritable(l, planes, traceLastMax);
    FramesWellCut(l, copies, traceLastMax, stateChunkSize);
    file, newChunkSize := None, stateChunkSize;
    var alloc := stateChunkSize;
    var zstOutAlloc := z.bound(alloc);
    var buf := new bv8[alloc](_ => 0);
    var p: nat, written: seq<Bytes> := 0, [];
    ghost var at := ProgressAt(l, copies, 0, traceLastMax, stateChunkSize);
    NothingYet(l, z, copies, traceLastMax, stateChunkSize);
    for i := 0 to |planes|
      invariant at == ProgressAt(l, copies, i, traceLastMax, stateChunkSize)
      invariant fresh(buf) && buf.Length == alloc == newChunkSize == at.alloc
      invariant p <= buf.Length && buf[..p] == Records(l, at.pending)
      invariant file == None && OnDisk(l, z, stateChunkSize, at.frames, written)
    {
      var copy: SizedPlane := Committed(planes[i]);
      var sizeState := SizeState(l, copy, traceLastMax);
      Room(l, copies, i, traceLastMax, stateChunkSize);
      NextAircraft(l, copies, i, traceLastMax, stateChunkSize);
      if p + sizeState > alloc {
        var packed := Flush(l, z, buf, p, zstOutAlloc);
        if packed == None {
          Refused(l, z, copies, |at.frames|, traceLastMax, stateChunkSize);
          return;
        }
        DiskGrows(l, z, stateChunkSize, at.frames, written, Frame(at.pending, at.alloc));
        written := written + [packed.value];
        if sizeState > alloc {
          alloc := Max(2 * sizeState, newChunkSize);
          newChunkSize := Max(alloc, newChunkSize);
          buf := new bv8[alloc](_ => 0);
        }
        p := 0;
      }
      RecordFits(l, copy, traceLastMax);
      p := WriteRecord(l, buf, p, copy);
      at := After(l, at, copy, traceLastMax);
    }
    Room(l, copies, |planes|, traceLastMax, stateChunkSize);
    var packed := Flush(l, z, buf, p, zstOutAlloc);
    if packed == None {
      Refused(l, z, copies, |at.frames|, traceLastMax, stateChunkSize);
      return;
    }
    DiskGrows(l, z, stateChunkSize, at.frames, written, Frame(at.pending, at.alloc));
    file := Some(written + [packed.value]);
    Saved(l, z, copies, traceLastMax, stateChunkSize, file.value);
    LoadedAreSame(planes);
  }
}
