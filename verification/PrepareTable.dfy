/** prepareErrorTable of crc.c, and the proof that its result holds exactly the error
    patterns that can be corrected without ambiguity. */
module PrepareTable {
  import opened Polynomial
  import opened MessageBits
  import opened Checksum
  import opened Patterns
  import opened ErrorTable
  import opened TableOps
  import opened CollisionFlags

  // e stands for some pattern of at most m errors.
  ghost predicate DescribesErrors(e: ErrorInfo, n: nat, m: nat) {
    exists s :: ErrorSet(n, s, m) && Describes(e, n, s)
  }

  // The entries are exactly the patterns of at most correct errors that no other
  // pattern of at most detect errors can be mistaken for.
  ghost predicate CorrectsExactly(es: seq<ErrorInfo>, n: nat, correct: nat, detect: nat) {
    (forall e :: e in es ==> DescribesErrors(e, n, correct)) &&
    (forall s :: ErrorSet(n, s, correct) ==>
      (Isolated(n, s, detect) <==> exists e :: e in es && Describes(e, n, s)))
  }

  // ----------------------------------------------- after sorting and merging

  lemma DescribesUnique(e: ErrorInfo, n: nat, s: set<nat>, t: set<nat>)
    requires Describes(e, n, s) && Describes(e, n, t)
    ensures s == t
  {
  }

  lemma DescribesKey(e: ErrorInfo, f: ErrorInfo, n: nat, s: set<nat>, t: set<nat>)
    requires Describes(e, n, s) && Describes(f, n, t)
    ensures Key(e) == Key(f) <==> PatternSyndrome(n, s) == PatternSyndrome(n, t)
  {
    hide Key, PatternSyndrome;
    KeyInjective(e, f);
  }

  lemma TwoCopies<T>(s: seq<T>, j: nat, k: nat)
    requires j < k < |s| && s[j] == s[k]
    ensures multiset(s)[s[j]] >= 2
  {
    var a, b := s[..k], s[k..];
    assert s == a + b;
    assert a[j] in multiset(a) && b[0] in multiset(b);
  }

  lemma {:induction false} OneCopy<T>(s: seq<T>, x: T)
    requires forall j, k :: 0 <= j < k < |s| ==> s[j] != s[k]
    ensures multiset(s)[x] <= 1
  {
    if s != [] {
      var a, b := s[..|s| - 1], s[|s| - 1];
      assert s == a + [b];
      OneCopy(a, x);
      if x == b {
        assert x !in a;
        assert x !in multiset(a);
      }
    }
  }

  // A sorted rearrangement of the filled table.
  ghost predicate Filled(q: seq<ErrorInfo>, f: seq<ErrorInfo>, n: nat, m: nat) {
    multiset(q) == multiset(f) && |f| == |Extensions(FIRST_BIT, n, {}, m)| &&
    forall k :: 0 <= k < |f| ==> Describes(f[k], n, Extensions(FIRST_BIT, n, {}, m)[k])
  }

  lemma EntryAt(q: seq<ErrorInfo>, f: seq<ErrorInfo>, n: nat, m: nat, k: nat) returns (i: nat)
    requires Filled(q, f, n, m) && k < |q|
    ensures i < |f| && f[i] == q[k]
    ensures i < |Extensions(FIRST_BIT, n, {}, m)|
    ensures var s := Extensions(FIRST_BIT, n, {}, m)[i]; Describes(q[k], n, s) && ErrorSet(n, s, m)
  {
    hide Describes, PatternSyndrome, Extends;
    assert q[k] in multiset(q);
    assert q[k] in multiset(f);
    i :| 0 <= i < |f| && f[i] == q[k];
    ExtensionsSound(FIRST_BIT, n, {}, m, i);
    ErrorSetIsExtension(n, Extensions(FIRST_BIT, n, {}, m)[i], m);
  }

  lemma ErrorSetIsExtension(n: nat, s: set<nat>, m: nat)
    ensures ErrorSet(n, s, m) <==> Extends(s, {}, FIRST_BIT, n) && |s| <= m
  {
    assert s - {} == s;
    if s != {} {
      assert |s| >= 1;
    }
  }

  lemma EntryFor(q: seq<ErrorInfo>, f: seq<ErrorInfo>, n: nat, m: nat, s: set<nat>) returns (k: nat)
    requires Filled(q, f, n, m) && ErrorSet(n, s, m)
    ensures k < |q| && Describes(q[k], n, s)
  {
    hide Describes, PatternSyndrome, Extends;
    ErrorSetIsExtension(n, s, m);
    var i := ExtensionsComplete(FIRST_BIT, n, {}, m, s);
    assert f[i] in multiset(f);
    assert f[i] in multiset(q);
    k :| 0 <= k < |q| && q[k] == f[i];
  }

  lemma FilledDistinct(q: seq<ErrorInfo>, f: seq<ErrorInfo>, n: nat, m: nat, j: nat, k: nat)
    requires Filled(q, f, n, m) && j < |q| && k < |q| && j != k
    ensures q[j] != q[k]
  {
    hide Describes, PatternSyndrome;
    var ps := Extensions(FIRST_BIT, n, {}, m);
    forall a, b | 0 <= a < b < |f|
      ensures f[a] != f[b]
    {
      ExtensionsDistinct(FIRST_BIT, n, {}, m, a, b);
      if f[a] == f[b] {
        DescribesUnique(f[a], n, ps[a], ps[b]);
      }
    }
    if q[j] == q[k] {
      TwoCopies(q, if j < k then j else k, if j < k then k else j);
      OneCopy(f, q[j]);
    }
  }

  /** An entry has a syndrome of its own exactly when its pattern is isolated among
      the patterns that the table was filled with. */
  lemma SolitaryIsIsolated(q: seq<ErrorInfo>, f: seq<ErrorInfo>, n: nat, m: nat, k: nat, s: set<nat>)
    requires Filled(q, f, n, m) && k < |q| && Describes(q[k], n, s)
    ensures Solitary(q, k) <==> Isolated(n, s, m)
  {
    hide Describes, PatternSyndrome, Key, ErrorSet, Filled, Extensions;
    if Solitary(q, k) {
      forall t | ErrorSet(n, t, m) && t != s
        ensures PatternSyndrome(n, t) != PatternSyndrome(n, s)
      {
        var j := EntryFor(q, f, n, m, t);
        if j == k {
          DescribesUnique(q[k], n, s, t);
        }
        DescribesKey(q[j], q[k], n, t, s);
      }
    }
    if Isolated(n, s, m) {
      forall j | 0 <= j < |q| && j != k
        ensures Key(q[j]) != Key(q[k])
      {
        var i := EntryAt(q, f, n, m, j);
        var t := Extensions(FIRST_BIT, n, {}, m)[i];
        if t == s {
          SamePattern(q, f, n, m, j, k, s);
        }
        DescribesKey(q[j], q[k], n, t, s);
      }
    }
  }

  // Two places of the table never describe the same pattern.
  lemma SamePattern(q: seq<ErrorInfo>, f: seq<ErrorInfo>, n: nat, m: nat, j: nat, k: nat, s: set<nat>)
    requires Filled(q, f, n, m) && j < |q| && k < |q| && Describes(q[j], n, s) && Describes(q[k], n, s)
    ensures j == k
  {
    hide Describes, PatternSyndrome, Key, ErrorSet, Filled, Extensions;
    var a := EntryAt(q, f, n, m, j);
    var b := EntryAt(q, f, n, m, k);
    var ps := Extensions(FIRST_BIT, n, {}, m);
    DescribesUnique(q[j], n, s, ps[a]);
    DescribesUnique(q[k], n, s, ps[b]);
    EmptyWithin(FIRST_BIT);
    if a < b {
      ExtensionsDistinct(FIRST_BIT, n, {}, m, a, b);
    } else if b < a {
      ExtensionsDistinct(FIRST_BIT, n, {}, m, b, a);
    }
    if j != k {
      FilledDistinct(q, f, n, m, j, k);
    }
  }

  lemma EmptyWithin(start: nat)
    ensures Within({}, 0, start)
  {
  }

  lemma MergedTable(q: seq<ErrorInfo>, f: seq<ErrorInfo>, n: nat, m: nat, d: seq<ErrorInfo>)
    requires Filled(q, f, n, m) && Sorted(q) && d == KeepSolitary(q, |q|)
    ensures StrictlySorted(d) && CorrectsExactly(d, n, m, m)
  {
    hide Describes, PatternSyndrome, Key, ErrorSet, Filled, Extensions, Isolated, Solitary, KeepSolitary, Sorted;
    KeepSolitarySorted(q, |q|);
    forall e | e in d
      ensures DescribesErrors(e, n, m)
    {
      KeepSolitaryMembers(q, |q|, e);
      var k :| 0 <= k < |q| && q[k] == e && Solitary(q, k);
      var i := EntryAt(q, f, n, m, k);
    }
    forall s | ErrorSet(n, s, m)
      ensures Isolated(n, s, m) <==> exists e :: e in d && Describes(e, n, s)
    {
      var k := EntryFor(q, f, n, m, s);
      SolitaryIsIsolated(q, f, n, m, k, s);
      KeepSolitaryMembers(q, |q|, q[k]);
      if e :| e in d && Describes(e, n, s) {
        KeepSolitaryMembers(q, |q|, e);
        var j :| 0 <= j < |q| && q[j] == e && Solitary(q, j);
        SamePattern(q, f, n, m, j, k, s);
      }
    }
  }

  // ------------------------------------------------- after flagging collisions

  lemma IsolatedAgainstMore(n: nat, s: set<nat>, m: nat, detect: nat)
    requires ErrorSet(n, s, m) && m <= detect
    ensures Isolated(n, s, detect) <==>
      Isolated(n, s, m) && !Hit(n, {}, FIRST_BIT, n, m + 1, detect, SyndromeKey(PatternSyndrome(n, s)))
  {
    hide PatternSyndrome, SyndromeKey, Extends;
    var key := SyndromeKey(PatternSyndrome(n, s));
    if Hit(n, {}, FIRST_BIT, n, m + 1, detect, key) {
      var t :| HitBy(t, n, {}, FIRST_BIT, n, m + 1, detect, key);
      ErrorSetIsExtension(n, t, detect);
      SyndromeKeyInjective(PatternSyndrome(n, t), PatternSyndrome(n, s));
    }
    if Isolated(n, s, m) && !Hit(n, {}, FIRST_BIT, n, m + 1, detect, key) {
      forall t | ErrorSet(n, t, detect) && t != s
        ensures PatternSyndrome(n, t) != PatternSyndrome(n, s)
      {
        if |t| > m {
          ErrorSetIsExtension(n, t, detect);
          NothingAbove(t, n);
          assert !HitBy(t, n, {}, FIRST_BIT, n, m + 1, detect, key);
        } else {
          assert ErrorSet(n, t, m);
        }
      }
    }
  }

  lemma NothingAbove(t: set<nat>, n: nat)
    ensures !Extends(t, {}, n, n)
  {
    if Extends(t, {}, n, n) {
      ExtendsSize(t, {}, n, n);
    }
  }

  lemma SyndromeKeyInjective(a: bv32, b: bv32)
    ensures SyndromeKey(a) == SyndromeKey(b) <==> a == b
  {
    assert (a as int) as bv32 == a;
    assert (b as int) as bv32 == b;
  }

  ghost function KeepUnflagged(s: seq<ErrorInfo>, i: nat): seq<ErrorInfo>
    requires i <= |s|
  {
    if i == 0 then []
    else KeepUnflagged(s, i - 1) + if s[i - 1].errors != FLAGGED then [s[i - 1]] else []
  }

  lemma {:induction false} KeepUnflaggedMembers(s: seq<ErrorInfo>, i: nat, e: ErrorInfo)
    requires i <= |s|
    ensures e in KeepUnflagged(s, i) <==> e in s[..i] && e.errors != FLAGGED
  {
    if i > 0 {
      KeepUnflaggedMembers(s, i - 1, e);
      assert s[..i] == s[..i - 1] + [s[i - 1]];
    }
  }

  lemma {:induction false} KeepUnflaggedSorted(s: seq<ErrorInfo>, i: nat)
    requires i <= |s| && StrictlySorted(s)
    ensures StrictlySorted(KeepUnflagged(s, i))
  {
    hide Key;
    if i > 0 {
      var kept := KeepUnflagged(s, i - 1);
      KeepUnflaggedSorted(s, i - 1);
      forall k | 0 <= k < |kept|
        ensures Key(kept[k]) < Key(s[i - 1])
      {
        assert kept[k] in kept;
        KeepUnflaggedMembers(s, i - 1, kept[k]);
      }
    }
  }

  lemma {:induction false} KeepAllUnflagged(s: seq<ErrorInfo>, i: nat)
    requires i <= |s| && CountFlagged(s) == 0
    ensures KeepUnflagged(s, i) == s[..i]
  {
    CountFlaggedZero(s);
    if i > 0 {
      KeepAllUnflagged(s, i - 1);
    }
  }

  method RemoveFlagged(table: array<ErrorInfo>, usedsize: nat) returns (j: nat)
    requires usedsize <= table.Length
    modifies table
    ensures j <= usedsize && table[..j] == KeepUnflagged(old(table[..usedsize]), usedsize)
  {
    ghost var s := table[..usedsize];
    j := 0;
    for i := 0 to usedsize
      invariant j <= i
      invariant table[..j] == KeepUnflagged(s, i)
      invariant forall k :: i <= k < usedsize ==> table[k] == s[k]
    {
      if table[i].errors != FLAGGED {
        if i != j {
          table[j] := table[i];
        }
        j := j + 1;
      }
    }
  }

  // What flagging does to the entry of an isolated or a colliding pattern.
  lemma FlaggedMembers(d: seq<ErrorInfo>, g: seq<ErrorInfo>, n: nat, m: nat, detect: nat, e: ErrorInfo)
    requires CorrectsExactly(d, n, m, m)
    requires FlaggedFrom(g, d, n, {}, FIRST_BIT, n, m + 1, detect)
    ensures e in KeepUnflagged(g, |g|) <==> e in d && !Hit(n, {}, FIRST_BIT, n, m + 1, detect, Key(e))
  {
    hide Hit, Key, Isolated, PatternSyndrome, KeepUnflagged;
    KeepUnflaggedMembers(g, |g|, e);
    assert g[..|g|] == g;
    if e in g && e.errors != FLAGGED {
      var k :| 0 <= k < |g| && g[k] == e;
      assert d[k] == e;
    }
    if e in d && !Hit(n, {}, FIRST_BIT, n, m + 1, detect, Key(e)) {
      var k :| 0 <= k < |d| && d[k] == e;
      assert g[k] == e;
      assert DescribesErrors(e, n, m);
      assert e.errors != FLAGGED by { DescribesErrorsCount(e, n, m); }
    }
  }

  lemma DescribesErrorsCount(e: ErrorInfo, n: nat, m: nat)
    requires DescribesErrors(e, n, m)
    ensures 1 <= e.errors <= m && e.errors != FLAGGED
  {
    hide PatternSyndrome;
  }

  lemma DescribesSyndrome(e: ErrorInfo, n: nat, s: set<nat>)
    requires Describes(e, n, s)
    ensures Key(e) == SyndromeKey(PatternSyndrome(n, s))
  {
    hide PatternSyndrome;
  }

  lemma FlaggedTable(d: seq<ErrorInfo>, g: seq<ErrorInfo>, n: nat, m: nat, detect: nat, c: seq<ErrorInfo>)
    requires m <= detect && StrictlySorted(d) && CorrectsExactly(d, n, m, m)
    requires FlaggedFrom(g, d, n, {}, FIRST_BIT, n, m + 1, detect) && c == KeepUnflagged(g, |g|)
    ensures StrictlySorted(c) && CorrectsExactly(c, n, m, detect)
  {
    hide Hit, Key, Isolated, PatternSyndrome, KeepUnflagged, Describes, ErrorSet, SyndromeKey, FlaggedFrom;
    FlaggedKeepsOrder(g, d, n, {}, FIRST_BIT, n, m + 1, detect);
    KeepUnflaggedSorted(g, |g|);
    forall e | e in c
      ensures DescribesErrors(e, n, m)
    {
      FlaggedMembers(d, g, n, m, detect, e);
    }
    forall s | ErrorSet(n, s, m)
      ensures Isolated(n, s, detect) <==> exists e :: e in c && Describes(e, n, s)
    {
      IsolatedAgainstMore(n, s, m, detect);
      if Isolated(n, s, detect) {
        var e :| e in d && Describes(e, n, s);
        DescribesSyndrome(e, n, s);
        FlaggedMembers(d, g, n, m, detect, e);
      }
      if e :| e in c && Describes(e, n, s) {
        DescribesSyndrome(e, n, s);
        FlaggedMembers(d, g, n, m, detect, e);
      }
    }
  }

  // --------------------------------------------------------- the whole method

  // The table that prepareErrorTable returns.
  ghost predicate CorrectionTable(es: seq<ErrorInfo>, n: nat, correct: nat, detect: nat) {
    StrictlySorted(es) && CorrectsExactly(es, n, correct, detect)
  }

  lemma NoExtensionsOfEmpty(n: nat, m: nat)
    ensures Within({}, 0, FIRST_BIT) && Describes(ErrorInfo(0, 0, [-1, -1]), n, {})
  {
    hide TimesX, Plus, BitValue;
    PatternSyndromeOfNone(n);
  }

  lemma TableSize(n: nat, m: nat)
    ensures |Extensions(FIRST_BIT, n, {}, m)| == if n <= FIRST_BIT then 0 else Sum(n - FIRST_BIT, m)
  {
    if n <= FIRST_BIT {
      NoExtensions(n, {}, m, FIRST_BIT);
    } else {
      ExtensionsCount(FIRST_BIT, n, {}, m);
    }
  }

  // Space for every error pattern of at most max_correct bits.
  method MaxSize(bits: nat, maxCorrect: nat) returns (maxsize: nat)
    ensures maxsize == |Extensions(FIRST_BIT, bits, {}, maxCorrect)|
  {
    maxsize := 0;
    for i := 1 to maxCorrect + 1
      invariant maxsize == if bits < FIRST_BIT then 0 else Sum(bits - FIRST_BIT, i - 1)
    {
      var c := Combinations(bits - FIRST_BIT, i);
      maxsize := maxsize + c;
    }
    TableSize(bits, maxCorrect);
    if bits == FIRST_BIT {
      SumOfEmpty(maxCorrect);
    }
  }

  // Filled, sorted and without duplicate syndromes: no two correctable patterns collide.
  method MergedEntries(tables: LookupTables, bits: nat, maxCorrect: nat)
      returns (entries: array<ErrorInfo>, usedsize: nat)
    requires tables.Valid() && bits <= LONG_MSG_BITS && maxCorrect <= MODES_MAX_BITERRORS
    ensures fresh(entries) && usedsize <= entries.Length && entries !in tables.Arrays()
    ensures StrictlySorted(entries[..usedsize]) && CorrectsExactly(entries[..usedsize], bits, maxCorrect, maxCorrect)
  {
    hide *;
    var maxsize := MaxSize(bits, maxCorrect);
    entries := new ErrorInfo[maxsize](_ => ErrorInfo(0, 0, [-1, -1]));
    var baseEntry := ErrorInfo(0, 0, [-1, -1]);
    NoExtensionsOfEmpty(bits, maxCorrect);
    tables.FreshApart(entries);
    // ignore the first five bits
    usedsize := PrepareSubtable(tables, entries, 0, maxsize, LONG_MSG_BITS - bits, FIRST_BIT, bits, baseEntry,
                                0, maxCorrect, {});
    ghost var f := entries[..usedsize];
    Qsort(entries, usedsize);
    ghost var q := entries[..usedsize];
    FilledIs(q, f, bits, maxCorrect);
    usedsize := RemoveDuplicates(entries, usedsize);
    MergedTable(q, f, bits, maxCorrect, entries[..usedsize]);
  }

  // Entries that a larger pattern collides with are flagged and removed.
  method RemoveCollisions(tables: LookupTables, entries: array<ErrorInfo>, used: nat, bits: nat, maxCorrect: nat,
                          maxDetect: nat)
      returns (usedsize: nat)
    requires tables.Valid() && bits <= LONG_MSG_BITS && maxCorrect < maxDetect
    requires used <= entries.Length && entries !in tables.Arrays()
    requires StrictlySorted(entries[..used]) && CorrectsExactly(entries[..used], bits, maxCorrect, maxCorrect)
    modifies entries
    ensures usedsize <= used
    ensures StrictlySorted(entries[..usedsize]) && CorrectsExactly(entries[..usedsize], bits, maxCorrect, maxDetect)
  {
    hide *;
    ghost var d := entries[..used];
    NoExtensionsOfEmpty(bits, maxCorrect);
    PatternSyndromeOfNone(bits);
    var flagged := FlagCollisions(tables, entries, used, LONG_MSG_BITS - bits, FIRST_BIT, bits, 0, 1,
                                  maxCorrect + 1, maxDetect, {});
    ghost var g := entries[..used];
    NoneFlaggedYet(d, bits, maxCorrect);
    usedsize := used;
    if flagged > 0 {
      usedsize := RemoveFlagged(entries, usedsize);
    } else {
      KeepAllUnflagged(g, |g|);
      assert g[..|g|] == g;
    }
    FlaggedTable(d, g, bits, maxCorrect, maxDetect, entries[..usedsize]);
  }

  method PrepareErrorTable(tables: LookupTables, bits: nat, maxCorrect: nat, maxDetect: nat)
    returns (table: array?<ErrorInfo>, size: nat)
    requires tables.Valid() && bits <= LONG_MSG_BITS
    requires maxCorrect <= MODES_MAX_BITERRORS && maxCorrect <= maxDetect
    ensures table == null <==> maxCorrect == 0
    ensures table == null ==> size == 0
    ensures table != null ==> fresh(table) && size <= table.Length && table !in tables.Arrays()
    ensures table != null ==> CorrectionTable(table[..size], bits, maxCorrect, maxDetect)
  {
    hide *;
    if maxCorrect == 0 {
      return null, 0;
    }
    var entries, usedsize := MergedEntries(tables, bits, maxCorrect);
    if maxDetect > maxCorrect {
      usedsize := RemoveCollisions(tables, entries, usedsize, bits, maxCorrect, maxDetect);
    }
    IsCorrectionTable(entries[..usedsize], bits, maxCorrect, maxDetect);
    return entries, usedsize;
  }

  lemma IsCorrectionTable(es: seq<ErrorInfo>, n: nat, correct: nat, detect: nat)
    requires StrictlySorted(es) && CorrectsExactly(es, n, correct, detect)
    ensures CorrectionTable(es, n, correct, detect)
  {
  }

  lemma FilledIs(q: seq<ErrorInfo>, f: seq<ErrorInfo>, n: nat, m: nat)
    requires multiset(q) == multiset(f) && |f| == |Extensions(FIRST_BIT, n, {}, m)|
    requires forall k :: 0 <= k < |f| ==> Describes(f[k], n, Extensions(FIRST_BIT, n, {}, m)[k])
    ensures Filled(q, f, n, m)
  {
  }

  lemma NoneFlaggedYet(d: seq<ErrorInfo>, n: nat, m: nat)
    requires CorrectsExactly(d, n, m, m)
    ensures CountFlagged(d) == 0
  {
    hide Isolated, Describes, ErrorSet;
    CountFlaggedZero(d);
    forall k | 0 <= k < |d|
      ensures d[k].errors != FLAGGED
    {
      assert d[k] in d;
      DescribesErrorsCount(d[k], n, m);
    }
  }
}
