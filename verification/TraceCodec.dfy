/** A codec as the trace store needs it exists: points written one after the other, with
    numbers as so many ones. */
module TraceCodec {
  import opened TraceStore

  // ------------------------------------------------------------------------ numbers

  function Ones(n: nat): Bytes {
    if n == 0 then [0] else [1] + Ones(n - 1)
  }

  function ReadOnes(bytes: Bytes): (nat, Bytes) {
    if bytes == [] then (0, [])
    else if bytes[0] != 1 then (0, bytes[1..])
    else var (n, rest) := ReadOnes(bytes[1..]); (n + 1, rest)
  }

  lemma {:induction false} OnesRead(n: nat, tail: Bytes)
    ensures ReadOnes(Ones(n) + tail) == (n, tail)
  {
    if n == 0 {
      assert ([0] + tail)[1..] == tail;
    } else {
      OnesRead(n - 1, tail);
      assert (Ones(n) + tail)[1..] == Ones(n - 1) + tail;
    }
  }

  // ------------------------------------------------------------------------- strings

  function Listed(bytes: Bytes): Bytes {
    if bytes == [] then [0] else [1, bytes[0]] + Listed(bytes[1..])
  }

  function ReadList(bytes: Bytes): (Bytes, Bytes) {
    if bytes == [] then ([], [])
    else if |bytes| == 1 || bytes[0] != 1 then ([], bytes[1..])
    else var (list, rest) := ReadList(bytes[2..]); ([bytes[1]] + list, rest)
  }

  lemma {:induction false} ListRead(bytes: Bytes, tail: Bytes)
    ensures ReadList(Listed(bytes) + tail) == (bytes, tail)
  {
    if bytes == [] {
      assert ([0] + tail)[1..] == tail;
    } else {
      ListRead(bytes[1..], tail);
      assert (Listed(bytes) + tail)[2..] == Listed(bytes[1..]) + tail;
      assert [bytes[0]] + bytes[1..] == bytes;
    }
  }

  // -------------------------------------------------------------------------- points

  function PointBytes(p: Slot): Bytes {
    [if p.ts < 0 then 1 else 0] + Ones(if p.ts < 0 then -p.ts else p.ts) + Listed(p.state) + Listed(p.all)
  }

  function ReadPoint(bytes: Bytes): (Slot, Bytes)
    requires bytes != []
  {
    var (n, rest) := ReadOnes(bytes[1..]);
    var (state, more) := ReadList(rest);
    var (all, tail) := ReadList(more);
    var ts: int := n;
    (Slot(if bytes[0] == 1 then -ts else ts, state, all), tail)
  }

  lemma PointRead(p: Slot, tail: Bytes)
    ensures ReadPoint(PointBytes(p) + tail) == (p, tail)
  {
    hide Ones, ReadOnes, Listed, ReadList;
    var n := if p.ts < 0 then -p.ts else p.ts;
    assert (PointBytes(p) + tail)[1..] == Ones(n) + (Listed(p.state) + (Listed(p.all) + tail));
    OnesRead(n, Listed(p.state) + (Listed(p.all) + tail));
    ListRead(p.state, Listed(p.all) + tail);
    ListRead(p.all, tail);
  }

  function Compress(points: seq<Slot>): Bytes {
    if points == [] then [] else PointBytes(points[0]) + Compress(points[1..])
  }

  function Decompress(bytes: Bytes): seq<Slot>
    decreases |bytes|
  {
    if bytes == [] then []
    else
      var (point, rest) := ReadPoint(bytes);
      [point] + if |rest| < |bytes| then Decompress(rest) else []
  }

  lemma {:induction false} Decompressed(points: seq<Slot>)
    ensures Decompress(Compress(points)) == points
  {
    hide PointBytes, ReadPoint;
    if points != [] {
      PointRead(points[0], Compress(points[1..]));
      PointNotEmpty(points[0]);
      Decompressed(points[1..]);
    }
  }

  lemma PointNotEmpty(p: Slot)
    ensures |PointBytes(p)| > 0
  {
  }

  lemma CompressFirst(p: Slot, points: seq<Slot>)
    ensures Compress([p] + points) == PointBytes(p) + Compress(points)
  {
    assert ([p] + points)[1..] == points;
  }

  lemma NothingCompressed()
    ensures Compress([]) == []
  {
  }

  lemma {:induction false} CompressConcat(a: seq<Slot>, b: seq<Slot>)
    ensures Compress(a + b) == Compress(a) + Compress(b)
  {
    hide PointBytes, Compress;
    NothingCompressed();
    if a == [] {
      assert a + b == b;
    } else {
      CompressConcat(a[1..], b);
      CompressFirst(a[0], a[1..] + b);
      CompressFirst(a[0], a[1..]);
      assert [a[0]] + (a[1..] + b) == a + b && [a[0]] + a[1..] == a;
      var first, more, last := PointBytes(a[0]), Compress(a[1..]), Compress(b);
      assert first + (more + last) == first + more + last;
    }
  }

  ghost function Plain(): Codec {
    Codec(Compress, Decompress, Whole)
  }

  // A byte string of whole points.
  ghost predicate Whole(bytes: Bytes) {
    exists s :: bytes == Compress(s)
  }

  lemma PlainIsLossless()
    ensures Lossless(Plain())
  {
    hide Compress, Decompress;
    forall s: seq<Slot>
      ensures Whole(Compress(s)) && Decompress(Compress(s)) == s
    {
      Decompressed(s);
    }
    forall a: Bytes, s: seq<Slot> | Whole(a)
      ensures Whole(a + Compress(s)) && Decompress(a + Compress(s)) == Decompress(a) + s
    {
      var t :| a == Compress(t);
      CompressConcat(t, s);
      Decompressed(t);
      Decompressed(t + s);
    }
  }
}
