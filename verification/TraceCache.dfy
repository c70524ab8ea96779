/** The cache of printed trace points in json_out.c: a sliding window of the trace whose
    printed bytes stand ready in one buffer. */
module TraceCache {
  import opened Basics

  // A stored position. Only the leg marker of a point changes after it is stored; the
  // rest of it is the record.
  datatype Record<D> = Record(ts: int, data: D)
  datatype Point<D> = Point(record: Record<D>, leg: bool)
  datatype Entry = Entry(ts: int, offset: int, len: int, leg: bool)

  // What sprintTracePoint prints of a point, relative to a reference time.
  type Printer<!D> = (Point<D>, int) -> seq<char>

  const TRACE_CACHE_LIFETIME: int := 60000
  const EIGHT_HOURS: int := 28800000
  const BYTES_PER_POINT: nat := 280

  // ------------------------------------------------------------------ printed traces

  /** A fresh print of points, one after the other. */
  ghost function Render<D>(sprint: Printer<D>, points: seq<Point<D>>, reference: int): seq<char> {
    if points == [] then []
    else Render(sprint, points[..|points| - 1], reference) + sprint(points[|points| - 1], reference)
  }

  // Where the first k entries end.
  function End(entries: seq<Entry>, k: int): int
    requires 0 <= k <= |entries|
  {
    if k == 0 then 0 else entries[k - 1].offset + entries[k - 1].len
  }

  // The bytes of one entry.
  ghost predicate Shown(entry: Entry, json: seq<char>, text: seq<char>) {
    && 0 <= entry.offset <= entry.offset + entry.len <= |json|
    && json[entry.offset..entry.offset + entry.len] == text
  }

  ghost predicate HoldsAt<D>(sprint: Printer<D>, entries: seq<Entry>, json: seq<char>, points: seq<Point<D>>,
                             reference: int, k: int)
    requires 0 <= k < |entries| && k < |points|
  {
    && entries[k].ts == points[k].record.ts && entries[k].leg == points[k].leg
    && entries[k].offset == End(entries, k)
    && Shown(entries[k], json, sprint(points[k], reference))
  }

  ghost predicate ShortPrints<D(!new)>(sprint: Printer<D>) {
    forall p, r :: |sprint(p, r)| < BYTES_PER_POINT
  }

  // The entries and the buffer hold the printed points, one after the other from the start.
  ghost predicate Holds<D>(sprint: Printer<D>, entries: seq<Entry>, json: seq<char>, points: seq<Point<D>>,
                           reference: int) {
    && |entries| == |points|
    && forall k {:trigger HoldsAt(sprint, entries, json, points, reference, k)} :: 0 <= k < |entries| ==>
         HoldsAt(sprint, entries, json, points, reference, k)
  }

  lemma HoldsNothing<D>(sprint: Printer<D>, entries: seq<Entry>, json: seq<char>, points: seq<Point<D>>, reference: int)
    requires |entries| == |points| == 0
    ensures Holds(sprint, entries, json, points, reference)
  {
  }

  lemma HoldsEach<D>(sprint: Printer<D>, entries: seq<Entry>, json: seq<char>, points: seq<Point<D>>, reference: int,
                     k: int)
    requires Holds(sprint, entries, json, points, reference) && 0 <= k < |entries|
    ensures |points| == |entries| && HoldsAt(sprint, entries, json, points, reference, k)
  {
  }

  lemma HoldsTake<D>(sprint: Printer<D>, entries: seq<Entry>, json: seq<char>, points: seq<Point<D>>, reference: int,
                     n: int)
    requires Holds(sprint, entries, json, points, reference) && 0 <= n <= |entries|
    ensures Holds(sprint, entries[..n], json, points[..n], reference)
  {
    forall k | 0 <= k < n
      ensures HoldsAt(sprint, entries[..n], json, points[..n], reference, k)
    {
      assert HoldsAt(sprint, entries, json, points, reference, k);
    }
  }

  // The buffer may change after the last entry.
  lemma HoldsFrame<D>(sprint: Printer<D>, entries: seq<Entry>, json: seq<char>, points: seq<Point<D>>, reference: int,
                      changed: seq<char>)
    requires Holds(sprint, entries, json, points, reference)
    requires var e := End(entries, |entries|); 0 <= e <= |changed| && e <= |json| && changed[..e] == json[..e]
    ensures Holds(sprint, entries, changed, points, reference)
  {
    forall k | 0 <= k < |entries|
      ensures HoldsAt(sprint, entries, changed, points, reference, k)
    {
      assert HoldsAt(sprint, entries, json, points, reference, k);
      EndsGrow(sprint, entries, json, points, reference, k + 1, |entries|);
      SameBytes(entries[k], json, changed, End(entries, |entries|), sprint(points[k], reference));
    }
  }

  lemma SameBytes(entry: Entry, json: seq<char>, changed: seq<char>, e: int, text: seq<char>)
    requires Shown(entry, json, text) && entry.offset + entry.len <= e
    requires 0 <= e <= |changed| && e <= |json| && changed[..e] == json[..e]
    ensures Shown(entry, changed, text)
  {
    var a, b := entry.offset, entry.offset + entry.len;
    SliceOfSlice(changed, 0, e, a, b);
    SliceOfSlice(json, 0, e, a, b);
  }

  lemma {:induction false} EndsGrow<D>(sprint: Printer<D>, entries: seq<Entry>, json: seq<char>, points: seq<Point<D>>,
                                       reference: int, i: int, j: int)
    requires Holds(sprint, entries, json, points, reference) && 0 <= i <= j <= |entries|
    ensures 0 <= End(entries, i) <= End(entries, j) <= |json|
    decreases j - i
  {
    if i < j {
      EndsGrow(sprint, entries, json, points, reference, i, j - 1);
      assert HoldsAt(sprint, entries, json, points, reference, j - 1);
    } else if i > 0 {
      assert HoldsAt(sprint, entries, json, points, reference, i - 1);
    }
  }

  lemma HoldsAppend<D>(sprint: Printer<D>, entries: seq<Entry>, json: seq<char>, points: seq<Point<D>>, reference: int,
                       entry: Entry, point: Point<D>)
    requires Holds(sprint, entries, json, points, reference)
    requires entry.ts == point.record.ts && entry.leg == point.leg
    requires entry.offset == End(entries, |entries|)
    requires Shown(entry, json, sprint(point, reference))
    ensures Holds(sprint, entries + [entry], json, points + [point], reference)
  {
    var longer := entries + [entry];
    forall k | 0 <= k < |longer|
      ensures HoldsAt(sprint, longer, json, points + [point], reference, k)
    {
      if k < |entries| {
        assert HoldsAt(sprint, entries, json, points, reference, k);
      }
    }
  }

  // Cutting the entries off at k, with the buffer rewritten from there.
  lemma HoldsCut<D>(sprint: Printer<D>, entries: seq<Entry>, json: seq<char>, points: seq<Point<D>>, reference: int,
                    k: int, changed: seq<char>)
    requires Holds(sprint, entries, json, points, reference) && 0 <= k <= |entries|
    requires 0 <= End(entries, k) <= |json| ==>
        End(entries, k) <= |changed| && changed[..End(entries, k)] == json[..End(entries, k)]
    ensures 0 <= End(entries, k) <= |json|
    ensures Holds(sprint, entries[..k], changed, points[..k], reference)
  {
    EndsGrow(sprint, entries, json, points, reference, 0, k);
    HoldsTake(sprint, entries, json, points, reference, k);
    HoldsFrame(sprint, entries[..k], json, points[..k], reference, changed);
  }

  // Cutting the entries off at k and printing another point there.
  lemma Reprinted<D>(sprint: Printer<D>, entries: seq<Entry>, json: seq<char>, points: seq<Point<D>>, reference: int,
                     k: int, changed: seq<char>, entry: Entry, point: Point<D>)
    requires Holds(sprint, entries, json, points, reference) && 0 <= k <= |entries|
    requires entry.ts == point.record.ts && entry.leg == point.leg && entry.offset == End(entries, k)
    requires 0 <= entry.offset <= |json| ==>
        entry.offset <= |changed| && changed[..entry.offset] == json[..entry.offset]
    requires Shown(entry, changed, sprint(point, reference))
    ensures Holds(sprint, entries[..k] + [entry], changed, points[..k] + [point], reference)
  {
    HoldsCut(sprint, entries, json, points, reference, k, changed);
    HoldsAppend(sprint, entries[..k], changed, points[..k], reference, entry, point);
  }

  function Shifted(entry: Entry, distance: int): Entry {
    entry.(offset := entry.offset - distance)
  }

  ghost function ShiftedAll(entries: seq<Entry>, distance: int): (shifted: seq<Entry>)
    ensures |shifted| == |entries|
    ensures forall k :: 0 <= k < |shifted| ==> shifted[k] == Shifted(entries[k], distance)
  {
    seq(|entries|, k requires 0 <= k < |entries| => Shifted(entries[k], distance))
  }

  /** Sliding: dropping the first entries and moving the rest to the front. */
  lemma HoldsSlide<D>(sprint: Printer<D>, entries: seq<Entry>, json: seq<char>, points: seq<Point<D>>, reference: int,
                      n: int, slid: seq<char>)
    requires Holds(sprint, entries, json, points, reference) && 0 <= n <= |entries|
    requires var from, to := End(entries, n), End(entries, |entries|);
      0 <= from <= to <= |json| && to - from <= |slid| && slid[..to - from] == json[from..to]
    ensures Holds(sprint, ShiftedAll(entries[n..], End(entries, n)), slid, points[n..], reference)
  {
    var from, to := End(entries, n), End(entries, |entries|);
    var moved := ShiftedAll(entries[n..], from);
    forall k | 0 <= k < |moved|
      ensures HoldsAt(sprint, moved, slid, points[n..], reference, k)
    {
      assert HoldsAt(sprint, entries, json, points, reference, n + k);
      EndsGrow(sprint, entries, json, points, reference, n, n + k);
      EndsGrow(sprint, entries, json, points, reference, n + k + 1, |entries|);
      SlidBytes(entries[n + k], json, slid, from, to, sprint(points[n + k], reference));
      if k > 0 {
        assert moved[k - 1] == Shifted(entries[n + k - 1], from);
      }
    }
  }

  lemma SlidBytes(entry: Entry, json: seq<char>, slid: seq<char>, from: int, to: int, text: seq<char>)
    requires Shown(entry, json, text) && from <= entry.offset && entry.offset + entry.len <= to
    requires 0 <= from <= to <= |json| && to - from <= |slid| && slid[..to - from] == json[from..to]
    ensures Shown(Shifted(entry, from), slid, text)
  {
    var a, b := entry.offset - from, entry.offset + entry.len - from;
    SliceOfSlice(slid, 0, to - from, a, b);
    SliceOfSlice(json, from, to, a, b);
  }

  lemma SliceOfSlice<T>(s: seq<T>, from: int, to: int, a: int, b: int)
    requires 0 <= from <= to <= |s| && 0 <= a <= b <= to - from
    ensures s[from..to][a..b] == s[from + a..from + b]
  {
    var l, r := s[from..to][a..b], s[from + a..from + b];
    assert forall k :: 0 <= k < |l| ==> l[k] == r[k];
  }

  /** The bytes from one entry to the last are a fresh print of their points. */
  lemma {:induction false} HoldsRender<D>(sprint: Printer<D>, entries: seq<Entry>, json: seq<char>,
                                          points: seq<Point<D>>,
                                          reference: int, i: int, j: int)
    requires Holds(sprint, entries, json, points, reference) && 0 <= i <= j <= |entries|
    ensures 0 <= End(entries, i) <= End(entries, j) <= |json|
    ensures json[End(entries, i)..End(entries, j)] == Render(sprint, points[i..j], reference)
    decreases j - i
  {
    EndsGrow(sprint, entries, json, points, reference, i, j);
    if i < j {
      EndsGrow(sprint, entries, json, points, reference, i, j - 1);
      HoldsRender(sprint, entries, json, points, reference, i, j - 1);
      assert HoldsAt(sprint, entries, json, points, reference, j - 1);
      assert points[i..j][..j - i - 1] == points[i..j - 1];
      var a, b, c := End(entries, i), End(entries, j - 1), End(entries, j);
      assert json[a..c] == json[a..b] + json[b..c];
    }
  }

  // ------------------------------------------------------------------------ traces

  // Timestamps grow, so a timestamp names a point.
  ghost predicate Increasing<D>(history: seq<Record<D>>) {
    forall i, j :: 0 <= i < j < |history| ==> history[i].ts < history[j].ts
  }

  // A trace shows the most recent part of the history, with its present leg markers.
  ghost predicate Shows<D>(trace: seq<Point<D>>, history: seq<Record<D>>) {
    && |trace| <= |history|
    && forall i :: 0 <= i < |trace| ==> trace[i].record == history[|history| - |trace| + i]
  }

  function FirstRecent(len: int, recentPoints: int): int {
    if len - recentPoints > 0 then len - recentPoints else 0
  }

  // The last points of a trace, so many of them if there are so many.
  function RecentPart<D>(trace: seq<Point<D>>, recentPoints: nat): (recent: seq<Point<D>>)
    ensures |recent| == Min(recentPoints, |trace|)
    ensures recent == trace[FirstRecent(|trace|, recentPoints)..]
  {
    trace[|trace| - Min(recentPoints, |trace|)..]
  }

  // memmove to the front of an array.
  method MoveToFront<T>(a: array<T>, from: nat, count: nat)
    requires from + count <= a.Length
    modifies a
    ensures a[..count] == old(a[from..from + count])
    ensures a[count..] == old(a[count..])
  {
    for i := 0 to count
      invariant a[..i] == old(a[from..from + i])
      invariant a[i..] == old(a[i..])
    {
      assert a[from + i] == a[i..][from] == old(a[i..][from]) == old(a[from + i]);
      a[i] := a[from + i];
    }
  }

  // The entries after the first ones move to the front, their offsets shifted.
  method MoveEntries(entries: array<Entry>, from: nat, count: nat, distance: int)
    requires from + count <= entries.Length
    modifies entries
    ensures entries[..count] == ShiftedAll(old(entries[from..from + count]), distance)
  {
    MoveToFront(entries, from, count);
    ghost var moved := entries[..];
    for x := 0 to count
      invariant forall k :: 0 <= k < x ==> entries[k] == Shifted(moved[k], distance)
      invariant forall k :: x <= k < entries.Length ==> entries[k] == moved[k]
    {
      entries[x] := Shifted(entries[x], distance);
    }
    assert moved[..count] == old(entries[from..from + count]);
    assert forall k :: 0 <= k < count ==> entries[..count][k] == Shifted(moved[..count][k], distance);
  }

  // The terminator after the text at p.
  method Terminate(json: array<char>, p: nat, q: nat)
    requires p <= q < json.Length
    modifies json
    ensures json[..p] == old(json[..p]) && json[p..q] == old(json[p..q])
  {
    json[q] := '\0';
  }

  // sprintTracePoint: safe_snprintf writes what fits and stops at the end of the buffer.
  method SprintTracePoint(json: array<char>, p: nat, text: seq<char>) returns (q: nat)
    requires p <= json.Length
    modifies json
    ensures q == if p + |text| <= json.Length then p + |text| else json.Length
    ensures json[..p] == old(json[..p])
    ensures p + |text| < json.Length ==> json[p..p + |text|] == text
  {
    q := p;
    while q < json.Length && q - p < |text|
      invariant p <= q <= json.Length && q - p <= |text|
      invariant json[..p] == old(json[..p])
      invariant json[p..q] == text[..q - p]
    {
      json[q] := text[q - p];
      q := q + 1;
    }
    if q < json.Length {
      json[q] := '\0';
    } else if 0 < q && p < q {
      json[q - 1] := '\0';
    }
  }

  // ------------------------------------------------------------------------- cache

  // The points of the history from base on, with the leg markers of the entries.
  ghost function Points<D>(history: seq<Record<D>>, base: nat, entries: seq<Entry>): (points: seq<Point<D>>)
    requires base + |entries| <= |history|
    ensures |points| == |entries|
  {
    seq(|entries|, k requires 0 <= k < |entries| && base + |entries| <= |history| =>
        Point(history[base + k], entries[k].leg))
  }

  lemma PointsCut<D>(history: seq<Record<D>>, base: nat, entries: seq<Entry>, k: int)
    requires base + |entries| <= |history| && 0 <= k <= |entries|
    ensures Points(history, base, entries[..k]) == Points(history, base, entries)[..k]
  {
  }

  // An entry kept because its marker is right shows the trace's point.
  lemma KeptPoint<D>(history: seq<Record<D>>, base: nat, entries: seq<Entry>, k: int, point: Point<D>)
    requires base + |entries| <= |history| && 0 <= k < |entries|
    requires point.record == history[base + k] && point.leg == entries[k].leg
    ensures Points(history, base, entries)[k] == point
  {
  }

  lemma PointsSlide<D>(history: seq<Record<D>>, base: nat, entries: seq<Entry>, n: nat, distance: int)
    requires base + |entries| <= |history| && n <= |entries|
    ensures Points(history, base + n, ShiftedAll(entries[n..], distance)) == Points(history, base, entries)[n..]
  {
  }

  lemma PointsAppend<D>(history: seq<Record<D>>, base: nat, entries: seq<Entry>, entry: Entry)
    requires base + |entries| + 1 <= |history|
    ensures Points(history, base, entries + [entry]) ==
      Points(history, base, entries) + [Point(history[base + |entries|], entry.leg)]
  {
  }

  class TraceCache<!D(!new)> {
    const sprint: Printer<D>
    const recentPoints: nat
    const cachePoints: nat

    // An array of length zero stands for memory that is not allocated.
    var entries: array<Entry>
    var json: array<char>
    var entriesLen: nat
    var firstRecentCache: nat
    var referenceTs: int
    // Which point of the history the first entry shows.
    ghost var base: nat

    // The points whose prints the cache holds.
    ghost function Window(history: seq<Record<D>>): seq<Point<D>>
      reads this, entries
      requires entriesLen <= entries.Length && base + entriesLen <= |history|
    {
      Points(history, base, entries[..entriesLen])
    }

    ghost predicate Consistent(history: seq<Record<D>>)
      reads this, entries, json
    {
      && 0 < recentPoints <= cachePoints && (entries as object) != json
      && (json.Length == 0 || json.Length == cachePoints * BYTES_PER_POINT)
      && entries.Length == (if json.Length == 0 then 0 else cachePoints)
      && entriesLen <= entries.Length && base + entriesLen <= |history|
      && Holds(sprint, entries[..entriesLen], json[..], Window(history), referenceTs)
      && (entriesLen > 0 ==> referenceTs != 0)
    }

    // The bytes of the entry at k start where those before it end.
    ghost predicate StartsAtEnd(k: int)
      reads this, entries
    {
      0 < k ==> k < entries.Length && entries[k].offset == entries[k - 1].offset + entries[k - 1].len
    }

    ghost predicate Valid(history: seq<Record<D>>)
      reads this, entries, json
    {
      && Consistent(history)
      && firstRecentCache <= entriesLen && StartsAtEnd(firstRecentCache)
    }

    constructor (sprint: Printer<D>, recentPoints: nat, cachePoints: nat)
      requires 0 < recentPoints <= cachePoints
      ensures Valid([]) && fresh(entries) && fresh(json)
      ensures this.sprint == sprint && this.recentPoints == recentPoints && this.cachePoints == cachePoints
    {
      this.sprint, this.recentPoints, this.cachePoints := sprint, recentPoints, cachePoints;
      entriesLen, firstRecentCache, referenceTs, base := 0, 0, 0, 0;
      entries, json := new Entry[0], new char[0];
    }

    // The calls that leave the cache alone.
    predicate Skipped(now: int, seenPosReliable: int, histOnly: bool)
      reads this
    {
      || now - seenPosReliable > TRACE_CACHE_LIFETIME
      || (json.Length == 0 && (histOnly || now - seenPosReliable > TRACE_CACHE_LIFETIME / 2))
    }

    // The rest of the loop body of checkTraceCache: an entry is printed anew, if it fits.
    method Reprint(k: nat, point: Point<D>, ghost history: seq<Record<D>>) returns (ok: bool)
      requires Consistent(history) && k <= entriesLen && k < entries.Length && base + k < |history|
      requires point.record == history[base + k] && referenceTs != 0
      modifies `entriesLen, entries, json
      ensures Consistent(history)
      ensures entriesLen == if ok then k + 1 else k
      ensures Window(history) == old(Window(history))[..k] + if ok then [point] else []
      ensures !ok ==> End(entries[..k], k) + |sprint(point, referenceTs)| + 1 >= json.Length
      ensures entries[..k] == old(entries[..k])
      ensures !ok ==> entries[..] == old(entries[..])
      ensures ok ==> entries[k].offset == End(entries[..k], k)
    {
      hide Holds, Points;
      ghost var was, held, bytes := Window(history), entries[..entriesLen], json[..];
      HoldsCut(sprint, held, bytes, was, referenceTs, k, bytes);
      PointsCut(history, base, held, k);
      assert entries[..k] == held[..k];
      entriesLen := k;
      var p := if k == 0 then 0 else entries[k - 1].offset + entries[k - 1].len;
      var text := sprint(point, referenceTs);
      var q := SprintTracePoint(json, p, text);
      if q + 1 >= json.Length {
        HoldsCut(sprint, held, bytes, was, referenceTs, k, json[..]);
        return false;
      }
      var entry := Entry(point.record.ts, p, q - p, point.leg);
      Terminate(json, p, q);
      Reprinted(sprint, held, bytes, was, referenceTs, k, json[..], entry, point);
      entries[k] := entry;
      entriesLen := k + 1;
      PointsAppend(history, base, held[..k], entry);
      assert entries[..k + 1] == held[..k] + [entry];
      return true;
    }

    // The slide of checkTraceCache: drop the first entries, and their bytes.
    method Slide(moveIndexes: nat, ghost history: seq<Record<D>>)
      requires Consistent(history) && 0 < moveIndexes < entriesLen
      modifies `entriesLen, `base, entries, json
      ensures Consistent(history)
      ensures entriesLen == old(entriesLen) - moveIndexes && base == old(base) + moveIndexes
    {
      hide Holds, Points, ShiftedAll;
      ghost var was, held, bytes := Window(history), entries[..entriesLen], json[..];
      EndsGrow(sprint, held, bytes, was, referenceTs, moveIndexes, entriesLen);
      HoldsEach(sprint, held, bytes, was, referenceTs, moveIndexes);
      var moveDist := entries[moveIndexes].offset;
      var moveBytes := entries[entriesLen - 1].offset + entries[entriesLen - 1].len - moveDist;
      assert entries[moveIndexes..entriesLen] == held[moveIndexes..];
      assert json[moveDist..moveDist + moveBytes] == bytes[moveDist..moveDist + moveBytes];
      entriesLen := entriesLen - moveIndexes;
      base := base + moveIndexes;
      MoveEntries(entries, moveIndexes, entriesLen, moveDist);
      MoveToFront(json, moveDist, moveBytes);
      assert json[..][..moveBytes] == json[..moveBytes];
      HoldsSlide(sprint, held, bytes, was, referenceTs, moveIndexes, json[..]);
      PointsSlide(history, base - moveIndexes, held, moveIndexes, moveDist);
    }

    // The cache is up to date for a trace: its last entries are the recent points, all of
    // them unless the buffer has no room for the next.
    ghost predicate UpToDate(trace: seq<Point<D>>, history: seq<Record<D>>)
      reads this, entries, json
      requires Consistent(history) && firstRecentCache <= entriesLen
    {
      var recent, n := RecentPart(trace, recentPoints), entriesLen - firstRecentCache;
      && firstRecentCache + |recent| <= cachePoints
      && n <= |recent| && Window(history)[firstRecentCache..] == recent[..n]
      && (n < |recent| ==> End(entries[..entriesLen], entriesLen) + |sprint(recent[n], referenceTs)| + 1 >= json.Length)
    }

    // The loop body of checkTraceCache: an entry that matches is kept.
    method Refresh(k: nat, point: Point<D>, ghost history: seq<Record<D>>) returns (ok: bool)
      requires Consistent(history) && k <= entriesLen && k < entries.Length && base + k < |history|
      requires point.record == history[base + k] && referenceTs != 0
      modifies `entriesLen, entries, json
      ensures Consistent(history)
      ensures ok ==> k < entriesLen && Window(history)[..k + 1] == old(Window(history))[..k] + [point]
      ensures !ok ==> entriesLen == k && Window(history) == old(Window(history))[..k]
      ensures !ok ==> End(entries[..k], k) + |sprint(point, referenceTs)| + 1 >= json.Length
      ensures old(k < entriesLen && entries[k].ts == point.record.ts && entries[k].leg == point.leg) ==>
        ok && entriesLen == old(entriesLen) && unchanged(entries) && unchanged(json)
      ensures forall j :: 0 <= j <= k ==> old(StartsAtEnd(j)) ==> StartsAtEnd(j)
    {
      if k < entriesLen && entries[k].ts == point.record.ts && point.leg == entries[k].leg {
        KeptPoint(history, base, entries[..entriesLen], k, point);
        return true;
      }
      ok := Reprint(k, point, history);
    }

    // The loop of checkTraceCache: cached entries are kept as long as they match.
    method Refill(trace: seq<Point<D>>, firstRecent: nat, ghost history: seq<Record<D>>)
      requires Valid(history) && entries.Length > 0 && referenceTs != 0
      requires Shows(trace, history) && firstRecent == FirstRecent(|trace|, recentPoints)
      requires base + firstRecentCache == |history| - |trace| + firstRecent
      requires firstRecentCache + |trace| - firstRecent <= cachePoints
      modifies `entriesLen, entries, json
      ensures Valid(history) && UpToDate(trace, history)
    {
      hide Holds, Points, UpToDate;
      var i, k := firstRecent, firstRecentCache;
      ghost var kept := Window(history)[..k];
      while i < |trace| && k < cachePoints
        invariant firstRecentCache <= k <= entriesLen && i - firstRecent == k - firstRecentCache && i <= |trace|
        invariant Valid(history)
        invariant Window(history)[..k] == kept + trace[firstRecent..i]
        decreases |trace| - i
      {
        var ok := Refresh(k, trace[i], history);
        if !ok {
          Refilled(trace, firstRecent, i, kept, history);
          return;
        }
        i, k := i + 1, k + 1;
        assert trace[firstRecent..i] == trace[firstRecent..i - 1] + [trace[i - 1]];
      }
      assert Window(history)[..k] == Window(history);
      Refilled(trace, firstRecent, i, kept, history);
    }

    // The cache holds the recent points up to one that does not fit, or all of them.
    lemma Refilled(trace: seq<Point<D>>, firstRecent: nat, i: nat, kept: seq<Point<D>>, history: seq<Record<D>>)
      requires Valid(history) && firstRecent == FirstRecent(|trace|, recentPoints) <= i <= |trace|
      requires |kept| == firstRecentCache && Window(history) == kept + trace[firstRecent..i]
      requires firstRecentCache + |trace| - firstRecent <= cachePoints
      requires i < |trace| ==>
        End(entries[..entriesLen], entriesLen) + |sprint(trace[i], referenceTs)| + 1 >= json.Length
      ensures UpToDate(trace, history)
    {
      hide Holds, Points;
      assert trace[firstRecent..][..i - firstRecent] == trace[firstRecent..i];
    }

    // The search of checkTraceCache for the first recent point.
    method Find(ts: int) returns (found: bool, cacheIndex: nat)
      requires entriesLen <= entries.Length
      ensures found ==> cacheIndex < entriesLen && entries[cacheIndex].ts == ts
      ensures !found ==> forall k :: 0 <= k < entriesLen ==> entries[k].ts != ts
    {
      cacheIndex := 0;
      while cacheIndex < entriesLen
        invariant cacheIndex <= entriesLen
        invariant forall k :: 0 <= k < cacheIndex ==> entries[k].ts != ts
      {
        if entries[cacheIndex].ts == ts {
          return true, cacheIndex;
        }
        cacheIndex := cacheIndex + 1;
      }
      return false, 0;
    }

    // The allocation at the start of checkTraceCache.
    method Allocate(ghost history: seq<Record<D>>)
      requires 0 < recentPoints <= cachePoints
      modifies this
      ensures Valid(history) && entries.Length == cachePoints && json.Length == cachePoints * BYTES_PER_POINT
      ensures fresh(entries) && fresh(json) && entriesLen == 0
    {
      entriesLen, firstRecentCache, referenceTs, base := 0, 0, 0, 0;
      entries := new Entry[cachePoints](_ => Entry(0, 0, 0, false));
      json := new char[cachePoints * BYTES_PER_POINT](_ => '\0');
    }

    // A point found by its time is the point itself.
    lemma FoundIsPoint(history: seq<Record<D>>, k: nat, j: nat)
      requires Consistent(history) && Increasing(history)
      requires k < entriesLen && j < |history| && entries[k].ts == history[j].ts
      ensures j == base + k
    {
      HoldsEach(sprint, entries[..entriesLen], json[..], Window(history), referenceTs, k);
    }

    lemma EntryTime(history: seq<Record<D>>, k: nat)
      requires Consistent(history) && k < entriesLen
      ensures entries[k].ts == history[base + k].ts && Window(history)[k] == Point(history[base + k], entries[k].leg)
    {
      HoldsEach(sprint, entries[..entriesLen], json[..], Window(history), referenceTs, k);
    }

    // The bytes of a cached entry start where those before it end.
    lemma EntryStartsAtEnd(history: seq<Record<D>>, k: nat)
      requires Consistent(history) && k < entriesLen
      ensures StartsAtEnd(k) && entries[k].offset == End(entries[..entriesLen], k)
    {
      HoldsEach(sprint, entries[..entriesLen], json[..], Window(history), referenceTs, k);
    }

    // There are printed bytes before an entry, and from it on.
    predicate CanSlide(first: int)
      reads this, entries
    {
      && 0 < first < entriesLen <= entries.Length
      && 0 < entries[first].offset < entries[entriesLen - 1].offset + entries[entriesLen - 1].len
    }

    /** The cache can be used again: the first recent point has an entry, and the recent points
        have room behind it or after a slide. */
    predicate Reusable(first: int, points: nat)
      reads this, entries
    {
      0 <= first < entriesLen && (first + points <= cachePoints || CanSlide(first))
    }

    lemma EntriesFit(history: seq<Record<D>>)
      requires Consistent(history) && entriesLen > 0
      ensures entries[entriesLen - 1].offset + entries[entriesLen - 1].len <= json.Length
    {
      hide Holds;
      EndsGrow(sprint, entries[..entriesLen], json[..], Window(history), referenceTs, 0, entriesLen);
    }

    // Over capacity, checkTraceCache slides the cache or gives it up.
    method MakeRoom(firstRecentIndex: nat, ghost history: seq<Record<D>>) returns (resetCache: bool, first: nat)
      requires Consistent(history) && firstRecentIndex < entriesLen
      modifies `entriesLen, `base, entries, json
      ensures Consistent(history)
      ensures !resetCache ==> first == 0 < entriesLen && base == old(base) + firstRecentIndex
      ensures resetCache <==> !old(CanSlide(firstRecentIndex))
    {
      EntryStartsAtEnd(history, firstRecentIndex);
      EntriesFit(history);
      first := firstRecentIndex;
      resetCache := false;
      var moveDist := entries[first].offset;
      var moveBytes := entries[entriesLen - 1].offset + entries[entriesLen - 1].len - moveDist;
      if entriesLen > cachePoints || first <= 0 || first > entriesLen {
        resetCache := true;
      }
      if moveDist + moveBytes > json.Length || moveBytes <= 0 || moveDist <= 0 {
        resetCache := true;
      }
      if !resetCache {
        Slide(first, history);
        first := 0;
      }
    }

    // The reuse part of checkTraceCache: the first recent point is looked up, and room made.
    method Locate(trace: seq<Point<D>>, firstRecent: nat, ghost history: seq<Record<D>>)
        returns (resetCache: bool, first: nat)
      requires Consistent(history) && Increasing(history) && Shows(trace, history) && |trace| > 0
      requires firstRecent == FirstRecent(|trace|, recentPoints)
      modifies `entriesLen, `base, entries, json
      ensures Consistent(history)
      ensures !resetCache ==> first < entriesLen && StartsAtEnd(first)
      ensures !resetCache ==> base + first == |history| - |trace| + firstRecent
      ensures !resetCache ==> first + |trace| - firstRecent <= cachePoints
      ensures !resetCache <==> old(Reusable(|history| - |trace| + firstRecent - base, |trace| - firstRecent))
    {
      hide Holds, Points;
      if 0 <= |history| - |trace| + firstRecent - base < entriesLen {
        EntryTime(history, |history| - |trace| + firstRecent - base);
      }
      var found, cacheIndex := Find(trace[firstRecent].record.ts);
      resetCache, first := true, cacheIndex;
      if found {
        FoundIsPoint(history, first, |history| - |trace| + firstRecent);
        resetCache := false;
        var newEntryCount := |trace| - firstRecent - (entriesLen - first);
        if entriesLen + newEntryCount > cachePoints {
          resetCache, first := MakeRoom(first, history);
        }
        if !resetCache {
          EntryStartsAtEnd(history, first);
        }
      }
    }

    // The rebuild of checkTraceCache.
    method Reset(firstRecentTs: int, ghost at: nat, ghost history: seq<Record<D>>)
      requires Consistent(history) && at <= |history|
      modifies `referenceTs, `entriesLen, `base
      ensures Consistent(history) && entriesLen == 0 && base == at && referenceTs == firstRecentTs
    {
      referenceTs := firstRecentTs;
      entriesLen := 0;
      base := at;
      HoldsNothing(sprint, entries[..entriesLen], json[..], Window(history), referenceTs);
    }

    /** checkTraceCache: afterwards the cache shows the recent points of the trace as a
        fresh print would, whichever of its entries were kept, moved or printed anew. */
    method CheckTraceCache(trace: seq<Point<D>>, now: int, seenPosReliable: int, histOnly: bool,
                           ghost history: seq<Record<D>>)
      requires Valid(history) && Increasing(history) && Shows(trace, history) && |trace| > 0
      requires trace[FirstRecent(|trace|, recentPoints)].record.ts != 0
      modifies this, entries, json
      ensures Valid(history)
      ensures old(Skipped(now, seenPosReliable, histOnly)) ==> unchanged(this) && unchanged(entries) && unchanged(json)
      ensures !old(Skipped(now, seenPosReliable, histOnly)) ==> UpToDate(trace, history) && entries.Length > 0
      ensures !old(Skipped(now, seenPosReliable, histOnly)) ==>
        0 != referenceTs && RecentPart(trace, recentPoints)[0].record.ts <= referenceTs + EIGHT_HOURS
      ensures !old(Skipped(now, seenPosReliable, histOnly)) ==>
        var recent := RecentPart(trace, recentPoints);
        referenceTs == if old(Reusable(|history| - |recent| - base, |recent|)) &&
                          recent[0].record.ts <= old(referenceTs) + EIGHT_HOURS
                       then old(referenceTs) else recent[0].record.ts
      ensures entries == old(entries) || fresh(entries)
      ensures json == old(json) || fresh(json)
    {
      hide Holds, Points, UpToDate;
      if now - seenPosReliable > TRACE_CACHE_LIFETIME {
        return;
      }
      if json.Length == 0 {
        if histOnly || now - seenPosReliable > TRACE_CACHE_LIFETIME / 2 {
          return;
        }
        Allocate(history);
      }
      var firstRecent := FirstRecent(|trace|, recentPoints);
      var firstRecentTs := trace[firstRecent].record.ts;
      var resetCache, first := Locate(trace, firstRecent, history);
      if referenceTs != 0 && firstRecentTs > referenceTs + EIGHT_HOURS {
        resetCache := true;
      }
      if resetCache {
        Reset(firstRecentTs, |history| - |trace| + firstRecent, history);
        first := 0;
      }
      firstRecentCache := first;
      Refill(trace, firstRecent, history);
    }

    /** The cache keeps its meaning while the aircraft's history grows. */
    lemma HistoryGrows(history: seq<Record<D>>, longer: seq<Record<D>>)
      requires Valid(history) && history <= longer
      ensures Valid(longer) && Window(longer) == Window(history)
    {
      assert forall k :: 0 <= k < |history| ==> history[k] == longer[k];
      assert Window(longer) == Window(history);
    }

    /** With prints under 280 bytes, the size that the buffer is planned for, every recent
        point is in the cache. */
    lemma ShortPrintsFit(trace: seq<Point<D>>, history: seq<Record<D>>)
      requires Valid(history) && UpToDate(trace, history) && entries.Length > 0
      requires cachePoints > 1 && ShortPrints(sprint)
      ensures Window(history)[firstRecentCache..] == RecentPart(trace, recentPoints)
    {
      var recent := RecentPart(trace, recentPoints);
      assert forall n :: 0 <= n < |recent| ==> |sprint(recent[n], referenceTs)| < BYTES_PER_POINT;
      ShortEnds(history, entriesLen);
    }

    lemma ShortEnds(history: seq<Record<D>>, k: nat)
      requires Consistent(history) && k <= entriesLen
      requires ShortPrints(sprint)
      ensures End(entries[..entriesLen], k) <= (BYTES_PER_POINT - 1) * k
    {
      if k > 0 {
        ShortEnds(history, k - 1);
        HoldsEach(sprint, entries[..entriesLen], json[..], Window(history), referenceTs, k - 1);
        assert |sprint(Window(history)[k - 1], referenceTs)| < BYTES_PER_POINT;
      }
    }

    // The bytes that generateTraceJson copies out of the cache.
    method CachedBytes(ghost history: seq<Record<D>>) returns (out: seq<char>)
      requires Valid(history) && entriesLen > 0
      ensures out == Render(sprint, Window(history)[firstRecentCache..], referenceTs)
    {
      hide Holds, Points;
      ghost var held, window := entries[..entriesLen], Window(history);
      HoldsRender(sprint, held, json[..], window, referenceTs, firstRecentCache, entriesLen);
      if firstRecentCache < entriesLen {
        EntryStartsAtEnd(history, firstRecentCache);
      }
      var first, last := entries[firstRecentCache], entries[entriesLen - 1];
      assert first.offset == End(held, firstRecentCache) && last.offset + last.len == End(held, entriesLen);
      out := json[first.offset..first.offset + (last.offset - first.offset + last.len)];
      assert out == json[..][End(held, firstRecentCache)..End(held, entriesLen)];
      assert window[firstRecentCache..entriesLen] == window[firstRecentCache..];
    }

    // The first recent point has a time.
    predicate Stamped(trace: seq<Point<D>>) {
      |trace| > 0 && recentPoints > 0 && trace[FirstRecent(|trace|, recentPoints)].record.ts != 0
    }

    // The entries from the first recent one on are those of the recent points.
    predicate ListsRecent(trace: seq<Point<D>>)
      reads this, entries
      requires firstRecentCache <= entriesLen <= entries.Length
    {
      var recent := RecentPart(trace, recentPoints);
      && entriesLen - firstRecentCache == |recent|
      && forall k :: 0 <= k < |recent| ==>
           entries[firstRecentCache + k].ts == recent[k].record.ts && entries[firstRecentCache + k].leg == recent[k].leg
    }

    /** Timestamps and leg markers tell whether a cache still shows the recent points. */
    lemma ListedAreShown(trace: seq<Point<D>>, history: seq<Record<D>>)
      requires Valid(history) && Increasing(history) && Shows(trace, history)
      ensures Window(history)[firstRecentCache..] == RecentPart(trace, recentPoints) <==> ListsRecent(trace)
    {
      hide Holds, Points, RecentPart;
      var shown, recent := Window(history)[firstRecentCache..], RecentPart(trace, recentPoints);
      if |shown| == |recent| {
        forall k | 0 <= k < |recent|
          ensures shown[k] == recent[k] <==>
              (entries[firstRecentCache + k].ts == recent[k].record.ts &&
               entries[firstRecentCache + k].leg == recent[k].leg)
        {
          RecentRecord(trace, history, k);
          EntryTime(history, firstRecentCache + k);
        }
      }
    }

    // A recent point is a record of the history, which its time tells from the others.
    lemma RecentRecord(trace: seq<Point<D>>, history: seq<Record<D>>, k: nat)
      requires Shows(trace, history) && Increasing(history) && k < |RecentPart(trace, recentPoints)|
      ensures var record := RecentPart(trace, recentPoints)[k].record;
        forall j :: 0 <= j < |history| && history[j].ts == record.ts ==> history[j] == record
    {
      var recent := RecentPart(trace, recentPoints);
      var i := |trace| - |recent| + k;
      assert recent[k] == trace[i] && trace[i].record == history[|history| - |trace| + i];
    }

    /** The cache branch of generateTraceJson: the printed recent points of a trace are the
        same bytes whether they come from the cache or not, if the cache is maintained by the
        call; otherwise exactly when its entries are still those of the recent points. */
    method RecentTraceJson(trace: seq<Point<D>>, now: int, seenPosReliable: int, histOnly: bool,
                           ghost history: seq<Record<D>>)
        returns (out: seq<char>, reference: int, cached: bool)
      requires Valid(history) && Increasing(history) && Shows(trace, history)
      modifies this, entries, json
      ensures Valid(history)
      ensures !cached ==> out == Render(sprint, trace[|trace| - Min(recentPoints, |trace|)..], reference)
      ensures cached ==>
          reference == referenceTs && out == Render(sprint, Window(history)[firstRecentCache..], reference)
      ensures (entries == old(entries) || fresh(entries)) && (json == old(json) || fresh(json))
      ensures cached <==> Stamped(trace) && entriesLen > 0
      ensures Stamped(trace) && !old(Skipped(now, seenPosReliable, histOnly)) ==>
          UpToDate(trace, history) && entries.Length > 0
      ensures old(Skipped(now, seenPosReliable, histOnly)) ==> unchanged(this) && unchanged(entries) && unchanged(json)
      ensures cached && old(Skipped(now, seenPosReliable, histOnly)) ==>
          (Window(history)[firstRecentCache..] == RecentPart(trace, recentPoints) <==> old(ListsRecent(trace)))
      ensures !old(Skipped(now, seenPosReliable, histOnly)) && cachePoints > 1 && ShortPrints(sprint) ==>
          out == Render(sprint, trace[|trace| - Min(recentPoints, |trace|)..], reference)
    {
      hide Holds, Points, UpToDate, Render, Reusable;
      var start := FirstRecent(|trace|, recentPoints);
      ghost var recent := RecentPart(trace, recentPoints);
      var firstStamp := if start < |trace| then trace[start].record.ts else 0;
      reference, cached, out := if start < |trace| then firstStamp else now, false, [];
      if firstStamp != 0 {
        CheckTraceCache(trace, now, seenPosReliable, histOnly, history);
        if entries.Length > 0 && entriesLen > 0 {
          cached, reference := true, referenceTs;
        }
      }
      if cached {
        out := CachedBytes(history);
        ListedAreShown(trace, history);
        if !old(Skipped(now, seenPosReliable, histOnly)) && cachePoints > 1 && ShortPrints(sprint) {
          ShortPrintsFit(trace, history);
        }
      } else {
        out := Printed(trace, start, reference);
      }
    }

    // The loop of generateTraceJson without the cache.
    method Printed(trace: seq<Point<D>>, start: nat, reference: int) returns (out: seq<char>)
      requires start <= |trace|
      ensures out == Render(sprint, trace[start..], reference)
    {
      out := [];
      for i := start to |trace|
        invariant out == Render(sprint, trace[start..i], reference)
      {
        assert trace[start..i + 1][..i - start] == trace[start..i];
        out := out + sprint(trace[i], reference);
      }
      assert trace[start..|trace|] == trace[start..];
    }
  }

  // ------------------------------------------------------------------ a stale print

  // A letter for every point.
  function Letter(point: Point<char>, reference: int): seq<char> {
    [point.record.data]
  }

  // Two points, the second of them stored a second after the first.
  function TwoPoints(): seq<Point<char>> {
    [Point(Record(1000, 'a'), false), Point(Record(2000, 'b'), false)]
  }

  // The cache after the first point has been printed.
  method FirstPrint(a: Point<char>) returns (cache: TraceCache<char>, first: seq<char>)
    requires a.record.ts == 1000
    ensures fresh(cache) && fresh(cache.entries) && fresh(cache.json)
    ensures cache.sprint == Letter && cache.recentPoints == 10 && cache.cachePoints == 20
    ensures cache.Valid([a.record]) && cache.entriesLen > 0
    ensures first == [a.record.data] &&
      Render(Letter, cache.Window([a.record])[cache.firstRecentCache..], cache.referenceTs) == first
  {
    hide Render, TraceCache.UpToDate, TraceCache.ListsRecent, TraceCache.Consistent;
    cache := new TraceCache<char>(Letter, 10, 20);
    cache.HistoryGrows([], [a.record]);
    var reference, cached;
    first, reference, cached := cache.RecentTraceJson([a], 1000, 1000, false, [a.record]);
    assert [a][1 - Min(10, 1)..] == [a];
    OneLetter(a, reference);
    cache.ShortPrintsFit([a], [a.record]);
  }

  lemma OneLetter(a: Point<char>, reference: int)
    ensures Render(Letter, [a], reference) == [a.record.data]
  {
    assert [a][..0] == [] && Render(Letter, [], reference) == [];
  }

  /** A point that is appended to the trace is not sent once the aircraft has not been seen
      for a minute: the cache with the first point is served as it is. */
  method StalePrint() returns (first: seq<char>, second: seq<char>, reference: int)
    ensures first == "a" && second == "a" && Render(Letter, TwoPoints(), reference) == "ab"
  {
    hide Render, TraceCache.UpToDate, TraceCache.ListsRecent, TraceCache.Consistent;
    var a, b := TwoPoints()[0], TwoPoints()[1];
    var cache, cached;
    cache, first := FirstPrint(a);
    cache.HistoryGrows([a.record], [a.record, b.record]);
    second, reference, cached := cache.RecentTraceJson([a, b], 2000 + 60001, 2000, false, [a.record, b.record]);
    Letters(reference);
  }

  lemma Letters(reference: int)
    ensures Render(Letter, TwoPoints()[..1], reference) == "a" && Render(Letter, TwoPoints(), reference) == "ab"
  {
    assert TwoPoints()[..1][..0] == [] && Render(Letter, [], reference) == [];
  }
}
