/** Saves that fail because the buffer grew and the output buffer did not: whatever lossless
    compressor is used, among so many traces there is one that does not shrink enough. */
module BlobGrowth {
  import opened Basics
  import opened ByteValues
  import opened TraceStore
  import opened StateBlob
  import opened BlobWriter

  // --------------------------------------------------------------- numbers in bytes

  // The lowest n bytes of a number, the lowest first.
  function Digits(value: nat, n: nat): (bytes: Bytes)
    ensures |bytes| == n
  {
    if n == 0 then [] else [(value % 256) as bv8] + Digits(value / 256, n - 1)
  }

  function Value(bytes: Bytes): nat {
    if bytes == [] then 0 else bytes[0] as nat + 256 * Value(bytes[1..])
  }

  function Power256(n: nat): nat {
    if n == 0 then 1 else 256 * Power256(n - 1)
  }

  lemma {:induction false} ValueOfDigits(value: nat, n: nat)
    requires value < Power256(n)
    ensures Value(Digits(value, n)) == value
  {
    if n > 0 {
      assert value / 256 < Power256(n - 1);
      ValueOfDigits(value / 256, n - 1);
      ByteOf(value % 256);
      assert Digits(value, n)[1..] == Digits(value / 256, n - 1);
    }
  }

  lemma EightBytes()
    ensures Power256(8) == U64
  {
    assert Power256(2) == 0x1_0000;
    assert Power256(4) == 0x1_0000_0000;
    assert Power256(6) == 0x1_0000_0000_0000;
  }

  lemma {:induction false} Power256Grows(m: nat, n: nat)
    requires m <= n
    ensures 0 < Power256(m) <= Power256(n)
  {
    if m < n {
      Power256Grows(m, n - 1);
    } else if m > 0 {
      Power256Grows(m - 1, n - 1);
    }
  }

  // -------------------------------------------------------------- counting byte strings

  // A number for every byte string, whatever its length.
  function Number(bytes: Bytes): nat {
    Value(bytes + [1])
  }

  lemma {:induction false} NumberBelow(bytes: Bytes)
    ensures 0 < Number(bytes) < 2 * Power256(|bytes|)
  {
    NumberStep(bytes);
    if bytes != [] {
      NumberBelow(bytes[1..]);
    }
  }

  lemma NumberStep(bytes: Bytes)
    ensures Number(bytes) == if bytes == [] then 1 else bytes[0] as nat + 256 * Number(bytes[1..])
  {
    if bytes == [] {
      assert Value([1][1..]) == 0;
    } else {
      assert (bytes + [1])[1..] == bytes[1..] + [1];
    }
  }

  lemma {:induction false} NumbersDiffer(s: Bytes, t: Bytes)
    requires Number(s) == Number(t)
    ensures s == t
  {
    hide Number;
    NumberStep(s);
    NumberStep(t);
    if s != [] && t != [] {
      NumbersDiffer(s[1..], t[1..]);
      assert s == [s[0]] + s[1..] && t == [t[0]] + t[1..];
    } else if s != [] {
      NumberBelow(s[1..]);
    } else if t != [] {
      NumberBelow(t[1..]);
    }
  }

  ghost predicate Injective<T(!new)>(f: nat -> T, count: nat) {
    forall v: nat, w: nat :: v < count && w < count && f(v) == f(w) ==> v == w
  }

  // The pigeonhole principle.
  lemma {:induction false} NoMoreThan(f: nat -> nat, count: nat, limit: nat)
    requires Injective(f, count) && forall v: nat :: v < count ==> f(v) < limit
    ensures count <= limit
  {
    if count > 0 {
      var last := f(count - 1);
      var g := (v: nat) => if f(v) == limit - 1 then last else f(v);
      NoMoreThan(g, count - 1, limit - 1);
    }
  }

  /** Of so many different byte strings one is longer than the limit. */
  lemma OneIsLong(f: nat -> Bytes, count: nat, limit: nat)
    requires Injective(f, count) && count > 2 * Power256(limit)
    ensures exists v: nat :: v < count && |f(v)| > limit
  {
    hide Number;
    if forall v: nat :: v < count ==> |f(v)| <= limit {
      var g := (v: nat) => Number(f(v));
      forall v: nat | v < count
        ensures g(v) < 2 * Power256(limit)
      {
        NumberBelow(f(v));
        Power256Grows(|f(v)|, limit);
      }
      forall v: nat, w: nat | v < count && w < count && g(v) == g(w)
        ensures v == w
      {
        NumbersDiffer(f(v), f(w));
      }
      NoMoreThan(g, count, 2 * Power256(limit));
    }
  }

  // ------------------------------------------------------------------ a failing input

  // The aircraft with other bytes in its first chunk.
  function WithContents(a: SizedPlane, bytes: Bytes): SizedPlane
    requires a.chunks != []
  {
    a.(chunks := a.chunks[0 := a.chunks[0].(compressed := bytes)])
  }

  // An aircraft with a trace, as it is written.
  ghost predicate Tracked(l: Layout, a: SizedPlane, traceLastMax: nat) {
    Writable(l, a, traceLastMax) && !a.posBuffered && a.traceLen > 0 && a.chunks != []
  }

  // The aircraft is too large for the buffer, so it is alone in the second frame.
  lemma SecondFrame(l: Layout, a: SizedPlane, traceLastMax: nat, chunkSize: nat)
    requires a.chunks != [] && |a.chunks[0].compressed| >= chunkSize
    ensures var frames := Frames(l, [a], traceLastMax, chunkSize);
      |frames| == 2 && frames[1].planes == [a]
  {
    hide Records, StateBytes;
    assert SizeState(l, a, traceLastMax) > chunkSize by {
      assert ChunkSizes(l, a.chunks) >= RoundUp8(|a.chunks[0].compressed|);
    }
    NoRecords(l);
    var first := ProgressAt(l, [a], 0, traceLastMax, chunkSize);
    assert ProgressAt(l, [a], 1, traceLastMax, chunkSize) == After(l, first, a, traceLastMax);
  }

  // Frames of aircraft that differ are different, because they can be read back.
  lemma FramesDiffer(l: Layout, a: SizedPlane, s: Bytes, t: Bytes, traceLastMax: nat)
    requires Faithful(l) && a.chunks != []
    requires Tracked(l, WithContents(a, s), traceLastMax) && Tracked(l, WithContents(a, t), traceLastMax)
    requires FrameBytes(l, [WithContents(a, s)]) == FrameBytes(l, [WithContents(a, t)])
    ensures s == t
  {
    hide Faithful, Writable, Records, LoadAircrafts;
    var p, q := WithContents(a, s), WithContents(a, t);
    FrameRoundTrip(l, [p], traceLastMax);
    FrameRoundTrip(l, [q], traceLastMax);
    assert Images([p])[0] == Image(p) && Images([q])[0] == Image(q);
    assert Image(p).chunks[0].compressed == s && Image(q).chunks[0].compressed == t;
  }

  /** Whatever the compressor: of so many different traces that do not fit the buffer, there
      is one with which save_blob saves nothing. */
  lemma AmongMany(l: Layout, z: Zstd, a: SizedPlane, contents: nat -> Bytes, count: nat, traceLastMax: nat,
                  chunkSize: nat)
    requires Faithful(l) && Packs(z) && a.chunks != []
    requires Injective(contents, count) && count > 2 * Power256(z.bound(chunkSize))
    requires forall v: nat :: v < count ==>
      |contents(v)| >= chunkSize && Tracked(l, WithContents(a, contents(v)), traceLastMax)
    ensures exists v: nat :: v < count && !AllFit(l, z, [WithContents(a, contents(v))], traceLastMax, chunkSize)
  {
    hide Faithful, Tracked, FrameBytes, Frames, Power256, WithContents;
    var packed := (v: nat) => z.compress(FrameBytes(l, [WithContents(a, contents(v))]));
    forall v: nat, w: nat | v < count && w < count && packed(v) == packed(w)
      ensures v == w
    {
      BlobWriter.Unpacked(z, FrameBytes(l, [WithContents(a, contents(v))]));
      BlobWriter.Unpacked(z, FrameBytes(l, [WithContents(a, contents(w))]));
      FramesDiffer(l, a, contents(v), contents(w), traceLastMax);
    }
    OneIsLong(packed, count, z.bound(chunkSize));
    var v: nat :| v < count && |packed(v)| > z.bound(chunkSize);
    var p := WithContents(a, contents(v));
    FirstContents(a, contents(v));
    SecondFrame(l, p, traceLastMax, chunkSize);
    assert !Fits(l, z, chunkSize, Frames(l, [p], traceLastMax, chunkSize)[1]);
  }

  lemma FirstContents(a: SizedPlane, bytes: Bytes)
    requires a.chunks != []
    ensures var p := WithContents(a, bytes);
      p.chunks != [] && p.chunks[0].compressed == bytes
  {
  }

  // All byte strings of one length.
  lemma AllContents(n: nat, limit: nat)
    requires n > limit
    ensures Injective((v: nat) => Digits(v, n), Power256(n)) && Power256(n) > 2 * Power256(limit)
  {
    hide Digits, Value;
    forall v: nat, w: nat | v < Power256(n) && w < Power256(n) && Digits(v, n) == Digits(w, n)
      ensures v == w
    {
      ValueOfDigits(v, n);
      ValueOfDigits(w, n);
    }
    Power256Grows(limit, n - 1);
  }

  lemma OneStaysLong(z: Zstd, n: nat, limit: nat)
    requires Packs(z) && n > limit
    ensures exists v: nat :: |z.compress(Digits(v, n))| > limit
  {
    hide Power256, Injective;
    var contents := (v: nat) => Digits(v, n);
    var packed := (v: nat) => z.compress(contents(v));
    AllContents(n, limit);
    PackedDiffer(z, contents, packed, Power256(n));
    OneIsLong(packed, Power256(n), limit);
    var v: nat :| v < Power256(n) && |packed(v)| > limit;
  }

  /** No bound of a lossless compressor is below the size of its input. */
  lemma BoundCovers(z: Zstd, n: nat)
    requires Packs(z)
    ensures z.bound(n) >= n
  {
    if z.bound(n) < n {
      OneStaysLong(z, n, z.bound(n));
    }
  }

  lemma PackedDiffer(z: Zstd, contents: nat -> Bytes, packed: nat -> Bytes, count: nat)
    requires Packs(z) && Injective(contents, count)
    requires forall v: nat :: v < count ==> packed(v) == z.compress(contents(v))
    ensures Injective(packed, count)
  {
    forall v: nat, w: nat | v < count && w < count && packed(v) == packed(w)
      ensures v == w
    {
      BlobWriter.Unpacked(z, contents(v));
      BlobWriter.Unpacked(z, contents(w));
    }
  }

  lemma ContentsAreFree(l: Layout, a: SizedPlane, bytes: Bytes, traceLastMax: nat)
    requires Tracked(l, a, traceLastMax) && |bytes| == |a.chunks[0].compressed|
    ensures Tracked(l, WithContents(a, bytes), traceLastMax)
    ensures Savable(l, [WithContents(a, bytes)], traceLastMax)
    ensures CommittedAll([WithContents(a, bytes)]) == [WithContents(a, bytes)]
  {
    var p := WithContents(a, bytes);
    assert HeadOf(p.chunks[0]) == HeadOf(a.chunks[0]);
    assert CraftOf(p) == CraftOf(a) && Committed(p) == p;
  }

  /** An aircraft with a chunk that is larger than the output buffer may fail the save,
      whatever the compressor and the layout are: it has a chunk of that size with which
      save_blob saves nothing. */
  lemma GrowthCanFail(l: Layout, z: Zstd, a: SizedPlane, traceLastMax: nat, chunkSize: nat)
    requires Faithful(l) && Packs(z) && Tracked(l, a, traceLastMax)
    requires |a.chunks[0].compressed| > z.bound(chunkSize)
    ensures exists bytes: Bytes ::
        |bytes| == |a.chunks[0].compressed| && FailsWith(l, z, a, bytes, traceLastMax, chunkSize)
  {
    hide Faithful, Packs, Writable, Digits, Frames, Power256, Injective, WithContents, Savable, CommittedAll, AllFit;
    var n := |a.chunks[0].compressed|;
    BoundCovers(z, chunkSize);
    AllContents(n, z.bound(chunkSize));
    var contents := (v: nat) => Digits(v, n);
    forall v: nat | v < Power256(n)
      ensures |contents(v)| == n && Tracked(l, WithContents(a, contents(v)), traceLastMax)
    {
      ContentsAreFree(l, a, contents(v), traceLastMax);
    }
    AmongMany(l, z, a, contents, Power256(n), traceLastMax, chunkSize);
    var v: nat :| v < Power256(n) && !AllFit(l, z, [WithContents(a, contents(v))], traceLastMax, chunkSize);
    ContentsAreFree(l, a, contents(v), traceLastMax);
    assert FailsWith(l, z, a, contents(v), traceLastMax, chunkSize);
  }

  // The aircraft can be saved as far as its values go, and it is not.
  ghost predicate FailsWith(l: Layout, z: Zstd, a: SizedPlane, bytes: Bytes, traceLastMax: nat, chunkSize: nat)
    requires a.chunks != []
  {
    var p := WithContents(a, bytes);
    Savable(l, [p], traceLastMax) && CommittedAll([p]) == [p] && !AllFit(l, z, [p], traceLastMax, chunkSize)
  }

  // ----------------------------------------------------------------- such an aircraft

  // An aircraft whose trace is one chunk of so many bytes.
  function OneChunk(size: nat): SizedPlane {
    Plane([], 4, [StateChunk(seq(size, _ => 0), 4, 0, 0)], [], 0, false, None)
  }

  // A layout in which this aircraft has a representation.
  function LayoutFor(a: SizedPlane): Layout
    requires a.chunks != []
  {
    var craft, head := CraftOf(a), HeadOf(a.chunks[0]);
    Layout((n: nat) => Digits(n, 8), bytes => Value(bytes),
           c => c == craft, _ => seq(1024, _ => 0), _ => craft, 1024,
           h => h == head, _ => seq(32, _ => 0), _ => head, 32,
           s => s == [], _ => [], _ => [], 128)
  }

  lemma LayoutIsFaithful(size: nat)
    ensures Faithful(LayoutFor(OneChunk(size))) && Tracked(LayoutFor(OneChunk(size)), OneChunk(size), 0)
  {
    hide Digits, Value;
    var l := LayoutFor(OneChunk(size));
    forall n: nat | n < U64
      ensures |l.u64(n)| == 8 && l.readU64(l.u64(n)) == n
    {
      EightBytes();
      ValueOfDigits(n, 8);
    }
    assert StateBytes(l, 0) == 0;
  }

  /** So no lossless compressor and no size of the buffer is safe. */
  lemma NoCompressorIsSafe(z: Zstd, chunkSize: nat)
    requires Packs(z)
    ensures exists l, a: SizedPlane, bytes :: Faithful(l) && Tracked(l, a, 0) && FailsWith(l, z, a, bytes, 0, chunkSize)
  {
    hide Faithful, Packs, Tracked, LayoutFor, FailsWith;
    var a := OneChunk(z.bound(chunkSize) + 1);
    LayoutIsFaithful(z.bound(chunkSize) + 1);
    GrowthCanFail(LayoutFor(a), z, a, 0, chunkSize);
  }
}
