/** The internal state of globe_index.c on disk: save_blob writes aircraft and their traces
    into frames, load_blob reads them back. */
module StateBlob {
  import opened Basics
  import opened TraceStore

  // The fields of struct aircraft that describe its trace, and the rest of it.
  datatype Craft = Craft(rest: Bytes, traceLen: int, traceChunkLen: int, traceCurrentLen: int, hasTraceLast: bool)
  datatype ChunkHead = ChunkHead(compressedSize: int, numStates: int, firstTimestamp: int, lastTimestamp: int)

  // An aircraft with its trace; current is all of the live array.
  datatype Plane = Plane(rest: Bytes, traceLen: nat, chunks: seq<StateChunk>, current: seq<Slot>, currentLen: nat,
                         posBuffered: bool, traceLast: Option<seq<Slot>>)

  // How the compiler lays out what is copied with memcpy: fixed sizes, and nothing lost of
  // the values that have a representation.
  datatype Layout = Layout(
    u64: nat -> Bytes, readU64: Bytes -> nat,
    crafts: Craft -> bool, craft: Craft -> Bytes, readCraft: Bytes -> Craft, craftSize: nat,
    heads: ChunkHead -> bool, head: ChunkHead -> Bytes, readHead: Bytes -> ChunkHead, headSize: nat,
    points: seq<Slot> -> bool, slots: seq<Slot> -> Bytes, readSlots: Bytes -> seq<Slot>, fourStateSize: nat)

  const U64: nat := 0x1_0000_0000_0000_0000

  ghost predicate Faithful(l: Layout) {
    && (forall n: nat :: n < U64 ==> |l.u64(n)| == 8 && l.readU64(l.u64(n)) == n)
    && (forall c :: l.crafts(c) ==> |l.craft(c)| == l.craftSize && l.readCraft(l.craft(c)) == c)
    && (forall h :: l.heads(h) ==> |l.head(h)| == l.headSize && l.readHead(l.head(h)) == h)
    && (forall s: seq<Slot> :: l.points(s) && |s| % SFOUR == 0 ==>
        |l.slots(s)| == StateBytes(l, |s|) && l.readSlots(l.slots(s)) == s)
    && l.craftSize < U64 && l.fourStateSize < U64
  }

  const STATE_SAVE_MAGIC: nat := 0x7ba0_9e63_7573_14ce
  const STATE_SAVE_MAGIC_END: nat := 0x7ba0_9e63_7573_14cf

  function StateBytes(l: Layout, points: nat): nat {
    GetFourStates(points) * l.fourStateSize
  }

  function RoundUp8(value: nat): (r: nat)
    ensures value <= r < value + 8 && r % 8 == 0
  {
    (value + 7) / 8 * 8
  }

  // ------------------------------------------------------------------------ writing

  // traceUsePosBuffered on the copy that is written.
  function Committed(a: Plane): Plane {
    if a.posBuffered then a.(posBuffered := false, traceLen := a.traceLen + 1, currentLen := a.currentLen + 1) else a
  }

  // The whole fourStates that hold the live points.
  function Whole(a: Plane): seq<Slot>
    requires AlignSFOUR(a.currentLen) <= |a.current|
  {
    a.current[..AlignSFOUR(a.currentLen)]
  }

  function CraftOf(a: Plane): Craft {
    Craft(a.rest, a.traceLen, |a.chunks|, a.currentLen, a.traceLast.Some?)
  }

  function HeadOf(chunk: StateChunk): ChunkHead {
    ChunkHead(|chunk.compressed|, chunk.numStates, chunk.firstTimestamp, chunk.lastTimestamp)
  }

  function ChunkBytes(l: Layout, chunk: StateChunk): Bytes {
    l.head(HeadOf(chunk)) + chunk.compressed + seq(RoundUp8(|chunk.compressed|) - |chunk.compressed|, _ => 0)
  }

  function ChunksBytes(l: Layout, chunks: seq<StateChunk>): Bytes {
    if chunks == [] then [] else ChunkBytes(l, chunks[0]) + ChunksBytes(l, chunks[1..])
  }

  function LastBytes(l: Layout, traceLast: Option<seq<Slot>>): Bytes {
    match traceLast
    case None => []
    case Some(last) => l.u64(|last|) + l.slots(last)
  }

  // The values have a representation, and the trace is one that TraceStore keeps.
  ghost predicate Writable(l: Layout, a: Plane, traceLastMax: nat) {
    && AlignSFOUR(a.currentLen) <= |a.current|
    && l.crafts(CraftOf(a)) && l.points(Whole(a))
    && (forall k :: 0 <= k < |a.chunks| ==> a.chunks[k].numStates % SFOUR == 0 && l.heads(HeadOf(a.chunks[k])))
    && (a.traceLast.Some? ==> |a.traceLast.value| == traceLastMax && l.points(a.traceLast.value))
    && traceLastMax % SFOUR == 0 && traceLastMax < U64
  }

  /** The bytes of one aircraft behind its magic number. */
  function Body(l: Layout, a: Plane): Bytes
    requires AlignSFOUR(a.currentLen) <= |a.current|
  {
    l.u64(l.craftSize) + l.craft(CraftOf(a)) + if a.traceLen > 0 then TraceBytes(l, a) else []
  }

  function TraceBytes(l: Layout, a: Plane): Bytes
    requires AlignSFOUR(a.currentLen) <= |a.current|
  {
    l.u64(l.fourStateSize) + ChunksBytes(l, a.chunks) + l.slots(Whole(a)) + LastBytes(l, a.traceLast)
  }

  // ------------------------------------------------------------------------ reading

  function ReadU64(l: Layout, bytes: Bytes): Option<(nat, Bytes)> {
    if |bytes| < 8 then None else Some((l.readU64(bytes[..8]), bytes[8..]))
  }

  function ReadChunk(l: Layout, bytes: Bytes): Option<(StateChunk, Bytes)> {
    if |bytes| < l.headSize then None
    else
      var head, rest := l.readHead(bytes[..l.headSize]), bytes[l.headSize..];
      if head.compressedSize < 0 || |rest| < RoundUp8(head.compressedSize) || head.numStates % SFOUR != 0 then None
      else
        var chunk := StateChunk(rest[..head.compressedSize], head.numStates, head.firstTimestamp, head.lastTimestamp);
        Some((chunk, rest[RoundUp8(head.compressedSize)..]))
  }

  function ReadChunks(l: Layout, n: int, bytes: Bytes): Option<(seq<StateChunk>, Bytes)>
    decreases n
  {
    if n <= 0 then Some(([], bytes))
    else
      match ReadChunk(l, bytes)
      case None => None
      case Some(first) =>
        match ReadChunks(l, n - 1, first.1)
        case None => None
        case Some(others) => Some(([first.0] + others.0, others.1))
  }

  // The live points as loaded; behind them the new array is cleared.
  function ReadCurrent(l: Layout, points: int, bytes: Bytes): Option<(seq<Slot>, Bytes)> {
    if points <= 0 then Some(([], bytes))
    else if |bytes| < StateBytes(l, points) then None
    else Some((l.readSlots(bytes[..StateBytes(l, points)]), bytes[StateBytes(l, points)..]))
  }

  function ReadLast(l: Layout, saved: bool, traceLastMax: nat, bytes: Bytes): Option<(Option<seq<Slot>>, Bytes)> {
    if !saved then Some((None, bytes))
    else
      match ReadU64(l, bytes)
      case None => None
      case Some(max) =>
        if |max.1| < StateBytes(l, max.0) then None
        else if max.0 != traceLastMax then Some((None, max.1[StateBytes(l, max.0)..]))
        else Some((Some(l.readSlots(max.1[..StateBytes(l, max.0)])), max.1[StateBytes(l, max.0)..]))
  }

  // The part of load_aircraft that reads the trace.
  function LoadTrace(l: Layout, traceLastMax: nat, craft: Craft, bytes: Bytes): Option<(Plane, Bytes)> {
    match ReadU64(l, bytes)
    case None => None
    case Some(four) =>
      if four.0 != l.fourStateSize then None
      else
        match ReadChunks(l, craft.traceChunkLen, four.1)
        case None => None
        case Some(chunks) =>
          match ReadCurrent(l, craft.traceCurrentLen, chunks.1)
          case None => None
          case Some(current) =>
            match ReadLast(l, craft.hasTraceLast, traceLastMax, current.1)
            case None => None
            case Some(last) =>
              Some((Plane(craft.rest, if craft.traceLen < 0 then 0 else craft.traceLen, chunks.0, current.0,
                if craft.traceCurrentLen < 0 then 0 else craft.traceCurrentLen, false, last.0), last.1))
  }

  /** load_aircraft, as far as the trace is concerned, of the bytes behind the magic number. */
  function LoadAircraft(l: Layout, traceLastMax: nat, bytes: Bytes): Option<(Plane, Bytes)> {
    match ReadU64(l, bytes)
    case None => None
    case Some(size) =>
      if size.0 != l.craftSize || |size.1| < size.0 then None
      else
        var craft, rest := l.readCraft(size.1[..size.0]), size.1[size.0..];
        if craft.traceLen <= 0 then Some((Plane(craft.rest, 0, [], [], 0, false, None), rest))
        else LoadTrace(l, traceLastMax, craft, rest)
  }

  // What is left of an aircraft on disk: its buffered position committed, its live array cut
  // to whole fourStates, and nothing of a trace that has no points.
  ghost function Image(a: Plane): Plane
    requires AlignSFOUR(a.currentLen) <= |a.current|
  {
    if a.traceLen > 0 then a.(current := Whole(a)) else Plane(a.rest, 0, [], [], 0, false, None)
  }

  // --------------------------------------------------------------------- round trip

  lemma U64RoundTrip(l: Layout, n: nat, tail: Bytes)
    requires Faithful(l) && n < U64
    ensures ReadU64(l, l.u64(n) + tail) == Some((n, tail))
  {
    assert (l.u64(n) + tail)[..8] == l.u64(n);
    assert (l.u64(n) + tail)[8..] == tail;
  }

  lemma ChunkRoundTrip(l: Layout, chunk: StateChunk, tail: Bytes)
    requires Faithful(l) && l.heads(HeadOf(chunk)) && chunk.numStates % SFOUR == 0
    ensures ReadChunk(l, ChunkBytes(l, chunk) + tail) == Some((chunk, tail))
  {
    var head, size := l.head(HeadOf(chunk)), |chunk.compressed|;
    var padding := seq(RoundUp8(size) - size, _ => 0 as bv8);
    var bytes := ChunkBytes(l, chunk) + tail;
    assert bytes == head + (chunk.compressed + padding + tail);
    assert bytes[..l.headSize] == head;
    var rest := bytes[l.headSize..];
    assert rest == chunk.compressed + (padding + tail);
    assert rest[..size] == chunk.compressed;
    assert rest == chunk.compressed + padding + tail;
    assert rest[RoundUp8(size)..] == tail;
  }

  lemma {:induction false} ChunksRoundTrip(l: Layout, chunks: seq<StateChunk>, tail: Bytes)
    requires Faithful(l)
    requires forall k :: 0 <= k < |chunks| ==> chunks[k].numStates % SFOUR == 0 && l.heads(HeadOf(chunks[k]))
    ensures ReadChunks(l, |chunks|, ChunksBytes(l, chunks) + tail) == Some((chunks, tail))
  {
    hide Faithful, ReadChunk, ChunkBytes;
    if chunks != [] {
      var others := ChunksBytes(l, chunks[1..]) + tail;
      ChunksRoundTrip(l, chunks[1..], tail);
      ChunkRoundTrip(l, chunks[0], others);
      assert ChunksBytes(l, chunks) + tail == ChunkBytes(l, chunks[0]) + others;
      assert [chunks[0]] + chunks[1..] == chunks;
    } else {
      assert ChunksBytes(l, chunks) + tail == tail;
    }
  }

  lemma CurrentRoundTrip(l: Layout, a: Plane, traceLastMax: nat, tail: Bytes)
    requires Faithful(l) && Writable(l, a, traceLastMax)
    ensures ReadCurrent(l, a.currentLen, l.slots(Whole(a)) + tail) == Some((Whole(a), tail))
  {
    hide StateBytes;
    WholeBytes(l, a);
    var bytes := l.slots(Whole(a)) + tail;
    assert bytes[..|l.slots(Whole(a))|] == l.slots(Whole(a));
    assert bytes[|l.slots(Whole(a))|..] == tail;
    if a.currentLen == 0 {
      assert Whole(a) == [];
      NoSlots(l, l.slots(Whole(a)));
      assert bytes == tail;
    }
  }

  lemma NoSlots(l: Layout, bytes: Bytes)
    requires |bytes| == StateBytes(l, 0)
    ensures bytes == []
  {
  }

  lemma LastRoundTrip(l: Layout, a: Plane, traceLastMax: nat, tail: Bytes)
    requires Faithful(l) && Writable(l, a, traceLastMax)
    ensures ReadLast(l, a.traceLast.Some?, traceLastMax, LastBytes(l, a.traceLast) + tail) == Some((a.traceLast, tail))
  {
    match a.traceLast {
      case None =>
        assert LastBytes(l, a.traceLast) + tail == tail;
      case Some(last) =>
        assert LastBytes(l, a.traceLast) + tail == l.u64(|last|) + (l.slots(last) + tail);
        U64RoundTrip(l, |last|, l.slots(last) + tail);
        var rest := l.slots(last) + tail;
        assert rest[..|l.slots(last)|] == l.slots(last);
        assert rest[|l.slots(last)|..] == tail;
    }
  }

  lemma TraceRoundTrip(l: Layout, a: Plane, traceLastMax: nat, tail: Bytes)
    requires Faithful(l) && Writable(l, a, traceLastMax) && !a.posBuffered
    ensures LoadTrace(l, traceLastMax, CraftOf(a), TraceBytes(l, a) + tail) == Some((a.(current := Whole(a)), tail))
  {
    hide ReadU64, ReadChunks, ReadCurrent, ReadLast, ChunksBytes, LastBytes, Whole;
    var t3 := LastBytes(l, a.traceLast) + tail;
    var t2 := l.slots(Whole(a)) + t3;
    var t1 := ChunksBytes(l, a.chunks) + t2;
    assert TraceBytes(l, a) + tail == l.u64(l.fourStateSize) + t1;
    U64RoundTrip(l, l.fourStateSize, t1);
    ChunksRoundTrip(l, a.chunks, t2);
    CurrentRoundTrip(l, a, traceLastMax, t3);
    LastRoundTrip(l, a, traceLastMax, tail);
  }

  /** Reading one aircraft back gives its image, and stops where it ends. */
  lemma AircraftRoundTrip(l: Layout, a: Plane, traceLastMax: nat, tail: Bytes)
    requires Faithful(l) && Writable(l, a, traceLastMax) && !a.posBuffered
    ensures LoadAircraft(l, traceLastMax, Body(l, a) + tail) == Some((Image(a), tail))
  {
    hide ReadU64, LoadTrace, TraceBytes, Whole;
    var craft := l.craft(CraftOf(a));
    var rest := if a.traceLen > 0 then TraceBytes(l, a) + tail else tail;
    assert Body(l, a) + tail == l.u64(l.craftSize) + (craft + rest);
    U64RoundTrip(l, l.craftSize, craft + rest);
    assert (craft + rest)[..l.craftSize] == craft && (craft + rest)[l.craftSize..] == rest;
    TraceRoundTrip(l, a, traceLastMax, tail);
  }

  // ------------------------------------------------------------------------- frames

  // load_aircrafts: aircraft until the end magic.
  function LoadAircrafts(l: Layout, traceLastMax: nat, bytes: Bytes): Option<seq<Plane>>
    decreases |bytes|
  {
    if bytes == [] then Some([])
    else
      match ReadU64(l, bytes)
      case None => None
      case Some(magic) =>
        if magic.0 == STATE_SAVE_MAGIC_END then Some([])
        else if magic.0 != STATE_SAVE_MAGIC then None
        else
          match LoadAircraft(l, traceLastMax, magic.1)
          case None => None
          case Some(first) =>
            if |first.1| >= |bytes| then None
            else
              match LoadAircrafts(l, traceLastMax, first.1)
              case None => None
              case Some(others) => Some([first.0] + others)
  }

  // The live array has the whole fourStates that the live points are in.
  predicate Sized(a: Plane) {
    AlignSFOUR(a.currentLen) <= |a.current|
  }

  type SizedPlane = a: Plane | Sized(a) witness Plane([], 0, [], [], 0, false, None)

  ghost predicate AllWritable(l: Layout, planes: seq<SizedPlane>, traceLastMax: nat) {
    forall k :: 0 <= k < |planes| ==> Writable(l, planes[k], traceLastMax) && !planes[k].posBuffered
  }

  function Record(l: Layout, a: SizedPlane): Bytes {
    l.u64(STATE_SAVE_MAGIC) + Body(l, a)
  }

  // Aircraft as they are on disk, one after the other.
  function Records(l: Layout, planes: seq<SizedPlane>): Bytes {
    if planes == [] then [] else Records(l, planes[..|planes| - 1]) + Record(l, planes[|planes| - 1])
  }

  ghost function Images(planes: seq<SizedPlane>): seq<Plane> {
    if planes == [] then [] else [Image(planes[0])] + Images(planes[1..])
  }

  lemma {:induction false} RecordsSplit(l: Layout, planes: seq<SizedPlane>)
    requires planes != []
    ensures Records(l, planes) == Record(l, planes[0]) + Records(l, planes[1..])
  {
    hide Record;
    var n := |planes| - 1;
    if n > 0 {
      RecordsSplit(l, planes[..n]);
      assert planes[..n][1..] == planes[1..][..n - 1];
      assert planes[1..][n - 1] == planes[n];
    } else {
      assert planes[..0] == [] && planes[1..] == [];
    }
  }

  /** A frame reads back as the images of the aircraft that were written into it. */
  lemma {:induction false} FrameRoundTrip(l: Layout, planes: seq<SizedPlane>, traceLastMax: nat)
    requires Faithful(l) && AllWritable(l, planes, traceLastMax)
    ensures LoadAircrafts(l, traceLastMax, Records(l, planes) + l.u64(STATE_SAVE_MAGIC_END)) == Some(Images(planes))
    decreases |planes|
  {
    hide Body, Image, LoadAircraft, ReadU64, Records, LoadAircrafts;
    var end := l.u64(STATE_SAVE_MAGIC_END);
    if planes == [] {
      EmptyFrame(l, traceLastMax);
    } else {
      var rest := Records(l, planes[1..]) + end;
      RecordsSplit(l, planes);
      assert Records(l, planes) + end == Record(l, planes[0]) + rest;
      FrameRoundTrip(l, planes[1..], traceLastMax);
      FrameStep(l, planes[0], traceLastMax, rest);
    }
  }

  lemma EmptyFrame(l: Layout, traceLastMax: nat)
    requires Faithful(l)
    ensures LoadAircrafts(l, traceLastMax, Records(l, []) + l.u64(STATE_SAVE_MAGIC_END)) == Some([])
  {
    U64RoundTrip(l, STATE_SAVE_MAGIC_END, []);
    assert Records(l, []) + l.u64(STATE_SAVE_MAGIC_END) == l.u64(STATE_SAVE_MAGIC_END) + [];
  }

  lemma FrameStep(l: Layout, a: SizedPlane, traceLastMax: nat, rest: Bytes)
    requires Faithful(l) && Writable(l, a, traceLastMax) && !a.posBuffered
    requires LoadAircrafts(l, traceLastMax, rest).Some?
    ensures LoadAircrafts(l, traceLastMax, Record(l, a) + rest) ==
      Some([Image(a)] + LoadAircrafts(l, traceLastMax, rest).value)
  {
    hide Body, Image, LoadAircraft, ReadU64;
    var bytes := Record(l, a) + rest;
    assert bytes == l.u64(STATE_SAVE_MAGIC) + (Body(l, a) + rest);
    U64RoundTrip(l, STATE_SAVE_MAGIC, Body(l, a) + rest);
    AircraftRoundTrip(l, a, traceLastMax, rest);
    assert |l.u64(STATE_SAVE_MAGIC)| == 8;
  }

  lemma {:induction false} ImagesConcat(a: seq<SizedPlane>, b: seq<SizedPlane>)
    ensures Images(a + b) == Images(a) + Images(b)
  {
    hide Image;
    if a == [] {
      assert a + b == b;
    } else {
      ImagesConcat(a[1..], b);
      assert (a + b)[1..] == a[1..] + b;
    }
  }

  // ------------------------------------------------------------------ room for a record

  // The room that save_blob reserves for an aircraft, with two magic numbers and two sizes.
  function SizeState(l: Layout, a: SizedPlane, traceLastMax: nat): nat {
    l.craftSize + ChunkSizes(l, a.chunks) + StateBytes(l, a.currentLen) + 32 +
    if a.traceLast.Some? then 8 + StateBytes(l, traceLastMax) else 0
  }

  function ChunkSizes(l: Layout, chunks: seq<StateChunk>): nat {
    if chunks == [] then 0 else l.headSize + RoundUp8(|chunks[0].compressed|) + ChunkSizes(l, chunks[1..])
  }

  lemma {:induction false} ChunksFit(l: Layout, chunks: seq<StateChunk>)
    requires Faithful(l) && forall k :: 0 <= k < |chunks| ==> l.heads(HeadOf(chunks[k]))
    ensures |ChunksBytes(l, chunks)| == ChunkSizes(l, chunks)
  {
    if chunks != [] {
      ChunksFit(l, chunks[1..]);
    }
  }

  /** The record of an aircraft and the end magic behind it fit the room reserved for it, to the
      byte when it has a trace. */
  lemma RecordFits(l: Layout, a: SizedPlane, traceLastMax: nat)
    requires Faithful(l) && Writable(l, a, traceLastMax)
    ensures |Record(l, a)| + 8 <= SizeState(l, a, traceLastMax)
    ensures a.traceLen > 0 ==> |Record(l, a)| + 8 == SizeState(l, a, traceLastMax)
    ensures a.traceLen == 0 ==> |Record(l, a)| == l.craftSize + 16
  {
    hide ChunksBytes, ChunkSizes, StateBytes, LastBytes, Whole;
    ChunksFit(l, a.chunks);
    WholeBytes(l, a);
    LastFits(l, a, traceLastMax);
    U64Size(l);
  }

  lemma WholeBytes(l: Layout, a: SizedPlane)
    requires Faithful(l) && l.points(Whole(a))
    ensures |l.slots(Whole(a))| == StateBytes(l, a.currentLen) == StateBytes(l, |Whole(a)|)
  {
    assert GetFourStates(a.currentLen) == GetFourStates(|Whole(a)|);
  }

  lemma LastFits(l: Layout, a: SizedPlane, traceLastMax: nat)
    requires Faithful(l) && Writable(l, a, traceLastMax)
    ensures |LastBytes(l, a.traceLast)| == if a.traceLast.Some? then 8 + StateBytes(l, traceLastMax) else 0
  {
  }

  lemma U64Size(l: Layout)
    requires Faithful(l)
    ensures |l.u64(STATE_SAVE_MAGIC)| == |l.u64(STATE_SAVE_MAGIC_END)| == |l.u64(l.craftSize)| ==
        |l.u64(l.fourStateSize)| == 8
  {
  }
}
