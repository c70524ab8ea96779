/** The lookups of api.c over one buffer of entries: by longitude range and box in the
    sorted list, by hex in chains, and the pieces of JSON that the entries name. */
module ApiIndex {
  import opened Basics

  // An entry as far as it is searched for; the rest of it is the text that is printed.
  datatype Entry = Entry(hex: nat, lat: int, lon: int, positionValid: bool, text: seq<char>)
  datatype Range = Range(from: int, to: int)

  ghost predicate SortedByLon(list: seq<Entry>) {
    forall i, j :: 0 <= i < j < |list| ==> list[i].lon <= list[j].lon
  }

  // The lower bound of findLonRange.
  method LowerBound(refFrom: int, list: seq<Entry>) returns (from: int)
    requires SortedByLon(list) && |list| > 0
    ensures 0 <= from <= |list|
    ensures forall k :: 0 <= k < |list| ==> (list[k].lon < refFrom <==> k < from)
  {
    var i, j := 0, |list| - 1;
    while j > i + 1
      invariant 0 <= i <= j < |list|
      invariant forall k :: 0 <= k < i ==> list[k].lon < refFrom
      invariant forall k :: j < k < |list| ==> list[k].lon >= refFrom
      invariant j < |list| - 1 ==> list[j].lon >= refFrom
    {
      var pivot := (i + j) / 2;
      if list[pivot].lon < refFrom {
        i := pivot;
      } else {
        j := pivot;
      }
    }
    from := if list[j].lon < refFrom then j + 1 else if list[i].lon < refFrom then i + 1 else i;
  }

  // The upper bound of findLonRange, exclusive, searched from the lower bound on.
  method UpperBound(from: int, refTo: int, list: seq<Entry>) returns (to: int)
    requires SortedByLon(list) && |list| > 0 && 0 <= from <= |list|
    requires forall k :: 0 <= k < from ==> list[k].lon <= refTo
    ensures 0 <= to <= |list|
    ensures forall k :: 0 <= k < |list| ==> (list[k].lon <= refTo <==> k < to)
  {
    var i, j := Min(from, |list| - 1), |list| - 1;
    while j > i + 1
      invariant 0 <= i <= j < |list|
      invariant forall k :: 0 <= k < i ==> list[k].lon <= refTo
      invariant forall k :: j < k < |list| ==> list[k].lon > refTo
      invariant j < |list| - 1 ==> list[j].lon > refTo
    {
      var pivot := (i + j) / 2;
      if list[pivot].lon <= refTo {
        i := pivot;
      } else {
        j := pivot;
      }
    }
    to := if list[j].lon <= refTo then j + 1 else if list[i].lon <= refTo then i + 1 else i;
  }

  /** findLonRange: of a list sorted by longitude, exactly the entries from the range. */
  method FindLonRange(refFrom: int, refTo: int, list: seq<Entry>) returns (res: Range)
    requires SortedByLon(list)
    ensures 0 <= res.from <= res.to <= |list|
    ensures forall i :: 0 <= i < |list| ==> (refFrom <= list[i].lon <= refTo <==> res.from <= i < res.to)
  {
    res := Range(0, 0);
    if |list| == 0 || refFrom > refTo {
      return;
    }
    var from := LowerBound(refFrom, list);
    var to := UpperBound(from, refTo, list);
    assert from > 0 ==> list[from - 1].lon < refFrom;
    res := Range(from, to);
  }

  // ------------------------------------------------------------------------- boxes

  const WEST: int := -180_000_000
  const EAST: int := 180_000_000

  // A box in millionths of a degree; it may span the antimeridian.
  datatype Box = Box(lat1: int, lat2: int, lon1: int, lon2: int)

  predicate InLatRange(e: Entry, box: Box, binCraft: bool) {
    e.lat >= box.lat1 && e.lat <= box.lat2 && (e.positionValid || binCraft)
  }

  // What is asked for: a position that can be shown, between two parallels and between two
  // meridians, eastwards from the first to the second.
  predicate InBox(e: Entry, box: Box, binCraft: bool) {
    && (binCraft || e.positionValid)
    && box.lat1 <= e.lat <= box.lat2
    && (box.lon1 <= box.lon2 ==> box.lon1 <= e.lon <= box.lon2)
    && (box.lon1 > box.lon2 ==> box.lon1 <= e.lon <= 180_000_000 || -180_000_000 <= e.lon <= box.lon2)
  }

  // The matches are entries of the list, no entry twice.
  ghost predicate Picks(list: seq<Entry>, matches: seq<Entry>, picked: seq<nat>) {
    && |picked| == |matches|
    && (forall k :: 0 <= k < |picked| ==> picked[k] < |list| && matches[k] == list[picked[k]])
    && (forall j, k :: 0 <= j < k < |picked| ==> picked[j] != picked[k])
  }

  // The loop of findInBox over one range.
  method CollectRange(list: seq<Entry>, r: Range, box: Box, binCraft: bool, before: seq<Entry>, ghost earlier: seq<nat>)
      returns (matches: seq<Entry>, ghost picked: seq<nat>)
    requires 0 <= r.from <= r.to <= |list| && Picks(list, before, earlier)
    requires forall k :: 0 <= k < |earlier| ==> !(r.from <= earlier[k] < r.to)
    ensures Picks(list, matches, picked)
    ensures forall i: nat :: i in picked <==> i in earlier || (r.from <= i < r.to && InLatRange(list[i], box, binCraft))
  {
    matches, picked := before, earlier;
    for j := r.from to r.to
      invariant Picks(list, matches, picked)
      invariant forall i: nat :: i in picked <==>
          i in earlier || (r.from <= i < j && InLatRange(list[i], box, binCraft))
    {
      if InLatRange(list[j], box, binCraft) {
        matches, picked := matches + [list[j]], picked + [j];
      }
    }
  }

  // The matches are the entries in the box, each picked once.
  ghost predicate Boxed(list: seq<Entry>, matches: seq<Entry>, box: Box, binCraft: bool) {
    exists picked :: Picks(list, matches, picked) && PickedBy(list, picked, box, binCraft)
  }

  ghost predicate PickedBy(list: seq<Entry>, picked: seq<nat>, box: Box, binCraft: bool) {
    forall i: nat :: i < |list| ==> (i in picked <==> InBox(list[i], box, binCraft))
  }

  /** findInBox returns every entry in the box once and no other entry, also when the box
      spans the antimeridian and takes two ranges. */
  method FindInBox(list: seq<Entry>, box: Box, binCraft: bool) returns (matches: seq<Entry>)
    requires SortedByLon(list)
    ensures Boxed(list, matches, box, binCraft)
  {
    hide SortedByLon;
    var first, second := Range(0, 0), Range(0, 0);
    if box.lon1 <= box.lon2 {
      first := FindLonRange(box.lon1, box.lon2, list);
    } else {
      first := FindLonRange(box.lon1, EAST, list);
      second := FindLonRange(WEST, box.lon2, list);
    }
    ghost var picked: seq<nat>;
    matches, picked := CollectRange(list, first, box, binCraft, [], []);
    matches, picked := CollectRange(list, second, box, binCraft, matches, picked);
    assert PickedBy(list, picked, box, binCraft);
  }

  // ------------------------------------------------------------------ hex and JSON

  const NULL: int := -1

  datatype Offset = Offset(offset: int, len: int)

  /** The last entry with an address, which a chain that is built by prepending finds first. */
  ghost function LastWith(list: seq<Entry>, present: nat -> bool, n: nat, hex: nat): (i: int)
    requires n <= |list|
    ensures NULL <= i < n
  {
    if n == 0 then NULL
    else if list[n - 1].hex == hex && present(hex) then n - 1
    else LastWith(list, present, n - 1, hex)
  }

  lemma {:induction false} LastWithIsLast(list: seq<Entry>, present: nat -> bool, n: nat, hex: nat)
    requires n <= |list|
    ensures var i := LastWith(list, present, n, hex);
      && (i == NULL ==> !present(hex) || forall k :: 0 <= k < n ==> list[k].hex != hex)
      && (i != NULL ==> list[i].hex == hex && present(hex) && forall k :: i < k < n ==> list[k].hex != hex)
  {
    if n > 0 {
      LastWithIsLast(list, present, n - 1, hex);
    }
  }

  // What an entry contributes to the JSON.
  function Piece(e: Entry): seq<char> {
    "\n" + e.text + ","
  }

  class ApiBuffer {
    const list: seq<Entry>
    const hash: nat -> nat
    const hashBuckets: nat
    // Whether an aircraft with the address is still there.
    const present: nat -> bool
    var hexHash: seq<int>
    var nextHex: seq<int>
    var jsonOffset: seq<Offset>
    var json: seq<char>

    constructor (list: seq<Entry>, hash: nat -> nat, hashBuckets: nat, present: nat -> bool)
      ensures this.list == list && this.hash == hash && this.hashBuckets == hashBuckets && this.present == present
      ensures hexHash == seq(hashBuckets, _ => NULL)
    {
      this.list, this.hash, this.hashBuckets, this.present := list, hash, hashBuckets, present;
      hexHash, nextHex, jsonOffset, json := seq(hashBuckets, _ => NULL), [], [], [];
    }

    // The hash function reaches every bucket it names.
    ghost predicate Hashed() {
      forall hex :: hash(hex) < hashBuckets
    }

    // Entry i is in the chain of bucket h.
    predicate InBucket(i: nat, h: nat)
      requires i < |list|
    {
      present(list[i].hex) && hash(list[i].hex) == h
    }

    // The last of the first n entries that is in a bucket.
    ghost function Latest(n: nat, h: nat): (i: int)
      requires n <= |list|
      ensures NULL <= i < n
    {
      if n == 0 then NULL else if InBucket(n - 1, h) then n - 1 else Latest(n - 1, h)
    }

    lemma {:induction false} LatestInBucket(n: nat, h: nat)
      requires n <= |list|
      ensures Latest(n, h) != NULL ==> InBucket(Latest(n, h), h)
    {
      if n > 0 && !InBucket(n - 1, h) {
        LatestInBucket(n - 1, h);
      }
    }

    // The first n entries are chained: every bucket leads to its latest entry, and every
    // entry to the one of its bucket before it.
    ghost predicate Chained(n: nat)
      reads `hexHash, `nextHex
      requires n <= |list|
    {
      && |nextHex| == n && |hexHash| == hashBuckets
      && (forall h :: 0 <= h < hashBuckets ==> hexHash[h] == Latest(n, h))
      && (forall i :: 0 <= i < n && present(list[i].hex) ==> nextHex[i] == Latest(i, hash(list[i].hex)))
    }

    // The entries' pieces lie one after the other in the JSON.
    ghost predicate Pieces(n: nat)
      reads `jsonOffset, `json
      requires n <= |list|
    {
      && |jsonOffset| == n
      && (forall i :: 0 <= i < n && present(list[i].hex) ==>
            && 0 <= jsonOffset[i].offset <= jsonOffset[i].offset + jsonOffset[i].len <= |json|
            && json[jsonOffset[i].offset..jsonOffset[i].offset + jsonOffset[i].len] == Piece(list[i]))
      && (forall i :: 0 <= i < n && !present(list[i].hex) ==> jsonOffset[i] == Offset(0, 0))
    }

    /** apiGenerateJson chains the entries by hex and notes where each one's JSON is. */
    method ApiGenerateJson()
      requires Hashed() && hexHash == seq(hashBuckets, _ => NULL)
      modifies `hexHash, `nextHex, `jsonOffset, `json
      ensures Chained(|list|) && Pieces(|list|)
    {
      hide Chained, Pieces, Hashed;
      NoEntries();
      for i := 0 to |list|
        invariant Chained(i) && Pieces(i)
      {
        if !present(list[i].hex) {
          SkipEntry(i);
        } else {
          ChainEntry(i);
          PrintEntry(i);
        }
      }
    }

    method NoEntries()
      requires hexHash == seq(hashBuckets, _ => NULL)
      modifies `nextHex, `jsonOffset, `json
      ensures Chained(0) && Pieces(0)
    {
      nextHex, jsonOffset, json := [], [], [];
    }

    // An entry without its aircraft is in no chain, and has no piece.
    method SkipEntry(i: nat)
      requires i < |list| && !present(list[i].hex) && Hashed() && Chained(i) && Pieces(i)
      modifies `nextHex, `jsonOffset
      ensures Chained(i + 1) && Pieces(i + 1)
    {
      hide Chained, Pieces, Hashed;
      SkipChain(i);
      SkipPiece(i);
    }

    method SkipChain(i: nat)
      requires i < |list| && !present(list[i].hex) && Chained(i)
      modifies `nextHex
      ensures Chained(i + 1)
    {
      hide Latest;
      nextHex := nextHex + [NULL];
      forall h: nat | h < hashBuckets
        ensures hexHash[h] == Latest(i + 1, h)
      {
        NotLatest(i, h);
      }
    }

    lemma NotLatest(i: nat, h: nat)
      requires i < |list| && !present(list[i].hex)
      ensures Latest(i + 1, h) == Latest(i, h)
    {
    }

    method SkipPiece(i: nat)
      requires i < |list| && !present(list[i].hex) && Pieces(i)
      modifies `jsonOffset
      ensures Pieces(i + 1)
    {
      hide Piece;
      jsonOffset := jsonOffset + [Offset(0, 0)];
    }

    // An entry becomes the head of its bucket.
    method ChainEntry(i: nat)
      requires i < |list| && present(list[i].hex) && Hashed() && Chained(i)
      modifies `hexHash, `nextHex
      ensures Chained(i + 1)
    {
      var h := hash(list[i].hex);
      nextHex := nextHex + [hexHash[h]];
      hexHash := hexHash[h := i];
    }

    // An entry's piece is appended to the JSON.
    method PrintEntry(i: nat)
      requires i < |list| && present(list[i].hex) && Pieces(i)
      modifies `jsonOffset, `json
      ensures Pieces(i + 1)
    {
      var start := |json|;
      ghost var was := json;
      json := json + "\n";
      json := json + list[i].text;
      json := json + ",";
      assert json == was + Piece(list[i]);
      hide Piece;
      jsonOffset := jsonOffset + [Offset(start, |json| - start)];
      forall k | 0 <= k < i && present(list[k].hex)
        ensures json[jsonOffset[k].offset..jsonOffset[k].offset + jsonOffset[k].len] == Piece(list[k])
      {
        assert json[jsonOffset[k].offset..jsonOffset[k].offset + jsonOffset[k].len] ==
          was[jsonOffset[k].offset..jsonOffset[k].offset + jsonOffset[k].len];
      }
    }

    // Entries outside the bucket of an address do not have the address.
    lemma {:induction false} OnlyInBucket(n: nat, addr: nat)
      requires n <= |list|
      ensures LastWith(list, present, n, addr) == LastWith(list, present, Latest(n, hash(addr)) + 1, addr)
    {
      if n > 0 && !InBucket(n - 1, hash(addr)) {
        OnlyInBucket(n - 1, addr);
      }
    }

    lemma Links(i: nat)
      requires i < |list| && Chained(|list|) && present(list[i].hex)
      ensures |nextHex| == |list| && nextHex[i] == Latest(i, hash(list[i].hex))
    {
    }

    lemma LastWithIsBefore(e: nat, addr: nat)
      requires e < |list| && list[e].hex != addr
      ensures LastWith(list, present, e + 1, addr) == LastWith(list, present, e, addr)
    {
    }

    // Where the walk along a chain starts, and how it goes on.
    lemma WalkStarts(addr: nat)
      requires Hashed() && Chained(|list|)
      ensures hash(addr) < |hexHash|
      ensures var e := hexHash[hash(addr)];
        && NULL <= e < |list| && (e != NULL ==> InBucket(e, hash(addr)))
        && LastWith(list, present, e + 1, addr) == LastWith(list, present, |list|, addr)
    {
      OnlyInBucket(|list|, addr);
      LatestInBucket(|list|, hash(addr));
      hide Latest, LastWith, InBucket;
    }

    lemma WalkGoesOn(e: nat, addr: nat)
      requires Chained(|list|) && e < |list| && InBucket(e, hash(addr)) && list[e].hex != addr
      ensures e < |nextHex|
      ensures var next := nextHex[e];
        && NULL <= next < e && (next != NULL ==> InBucket(next, hash(addr)))
        && LastWith(list, present, next + 1, addr) == LastWith(list, present, e + 1, addr)
    {
      hide Chained, Latest, LastWith;
      Links(e);
      LastWithIsBefore(e, addr);
      OnlyInBucket(e, addr);
      LatestInBucket(e, hash(addr));
    }

    lemma WalkEnds(e: int, addr: nat)
      requires NULL <= e < |list| && (e != NULL ==> InBucket(e, hash(addr)) && list[e].hex == addr)
      ensures LastWith(list, present, e + 1, addr) == e
    {
    }

    /** The walk along one chain of findHexList finds what a linear search from the end of
        the list finds. */
    method FindHex(addr: nat) returns (e: int)
      requires Hashed() && Chained(|list|)
      ensures e == LastWith(list, present, |list|, addr)
    {
      hide Latest, Chained, LastWith, Hashed, InBucket;
      WalkStarts(addr);
      e := hexHash[hash(addr)];
      while e != NULL && list[e].hex != addr
        invariant NULL <= e < |list| && (e != NULL ==> InBucket(e, hash(addr)))
        invariant LastWith(list, present, e + 1, addr) == LastWith(list, present, |list|, addr)
        decreases e + 1
      {
        WalkGoesOn(e, addr);
        e := nextHex[e];
      }
      WalkEnds(e, addr);
    }

    /** findHexList: for every address that is there, in the order they are asked for. */
    method FindHexList(hexList: seq<nat>) returns (matches: seq<Entry>)
      requires Hashed() && Chained(|list|)
      ensures matches == Found(hexList)
    {
      matches := [];
      for k := 0 to |hexList|
        invariant matches == Found(hexList[..k])
      {
        var e := FindHex(hexList[k]);
        assert hexList[..k + 1][..k] == hexList[..k];
        if e != NULL {
          matches := matches + [list[e]];
        }
      }
      assert hexList[..|hexList|] == hexList;
    }

    ghost function Found(hexList: seq<nat>): seq<Entry> {
      if hexList == [] then [] else
        var e := LastWith(list, present, |list|, hexList[|hexList| - 1]);
        Found(hexList[..|hexList| - 1]) + if e == NULL then [] else [list[e]]
    }
  }
}
