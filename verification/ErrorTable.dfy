/** The error-correction table of crc.c: filling, sorting, removal of duplicates,
    collision flagging and compaction. */
module ErrorTable {
  import opened Polynomial
  import opened MessageBits
  import opened Checksum
  import opened Patterns

  const MODES_MAX_BITERRORS: nat := 2

  // The downlink format, which is never corrected, takes the first five bits.
  const FIRST_BIT: nat := 5

  datatype ErrorInfo = ErrorInfo(syndrome: bv32, errors: int, bit: seq<int>)

  // ------------------------------------------------------- what an entry says

  function SetOf(e: ErrorInfo): set<nat>
    requires 0 <= e.errors <= |e.bit|
    requires forall k :: 0 <= k < e.errors ==> e.bit[k] >= 0
  {
    set k | 0 <= k < e.errors :: e.bit[k]
  }

  // e describes the error pattern s in messages of n bits.
  ghost predicate Describes(e: ErrorInfo, n: nat, s: set<nat>) {
    |e.bit| == MODES_MAX_BITERRORS && 0 <= e.errors <= MODES_MAX_BITERRORS &&
    (forall k :: 0 <= k < e.errors ==> e.bit[k] >= 0) &&
    SetOf(e) == s && |s| == e.errors && e.syndrome == PatternSyndrome(n, s)
  }

  // An error pattern of one to m bits outside the downlink format.
  ghost predicate ErrorSet(n: nat, s: set<nat>, m: nat) {
    Within(s, FIRST_BIT, n) && 1 <= |s| <= m
  }

  // No other pattern of at most m errors has the syndrome of s.
  ghost predicate Isolated(n: nat, s: set<nat>, m: nat) {
    forall t :: ErrorSet(n, t, m) && t != s ==> PatternSyndrome(n, t) != PatternSyndrome(n, s)
  }

  function Key(e: ErrorInfo): int {
    e.syndrome as int
  }

  ghost predicate Sorted(s: seq<ErrorInfo>) {
    forall i, j :: 0 <= i < j < |s| ==> Key(s[i]) <= Key(s[j])
  }

  ghost predicate StrictlySorted(s: seq<ErrorInfo>) {
    forall i, j :: 0 <= i < j < |s| ==> Key(s[i]) < Key(s[j])
  }

  lemma KeyInjective(a: ErrorInfo, b: ErrorInfo)
    ensures Key(a) == Key(b) <==> a.syndrome == b.syndrome
  {
    assert (a.syndrome as int) as bv32 == a.syndrome;
    assert (b.syndrome as int) as bv32 == b.syndrome;
  }

  // -------------------------------------------------------------- filling

  // The entry that prepareSubtable derives from a template by adding bit i.
  function WithBit(base: ErrorInfo, i: nat, errorBit: nat, syndrome: bv32): ErrorInfo
    requires errorBit < |base.bit|
  {
    ErrorInfo(Plus(base.syndrome, syndrome), errorBit + 1, base.bit[errorBit := i])
  }

  lemma WithBitDescribes(base: ErrorInfo, n: nat, s: set<nat>, i: nat)
    requires Describes(base, n, s) && |s| < MODES_MAX_BITERRORS
    requires i < n && i !in s
    ensures |base.bit| == MODES_MAX_BITERRORS
    ensures Describes(WithBit(base, i, |s|, XToThe(n - 1 - i)), n, s + {i})
  {
    hide Plus, TimesX, Remainder;
    PatternSyndromeInsert(n, s, i);
    var e := WithBit(base, i, |s|, XToThe(n - 1 - i));
    assert |s + {i}| == |s| + 1;
    assert SetOf(e) == s + {i} by {
      assert forall k :: 0 <= k < |s| ==> e.bit[k] == base.bit[k];
      assert e.bit[|s|] == i;
      forall x | x in s
        ensures x in SetOf(e)
      {
        var k :| 0 <= k < |s| && base.bit[k] == x;
        assert e.bit[k] == x;
      }
    }
  }

  method PrepareSubtable(tables: LookupTables, table: array<ErrorInfo>, n0: nat, maxsize: nat, offset: nat,
                         startbit: nat, endbit: nat, baseEntry: ErrorInfo, errorBit: nat, maxErrors: nat,
                         ghost base: set<nat>)
    returns (n: nat)
    requires tables.Valid() && table !in tables.Arrays() && offset + endbit == LONG_MSG_BITS
    requires maxErrors <= MODES_MAX_BITERRORS
    requires Describes(baseEntry, endbit, base) && |base| == errorBit && Within(base, 0, startbit)
    requires n0 + |Extensions(startbit, endbit, base, maxErrors)| <= maxsize == table.Length
    modifies table
    ensures n == n0 + |Extensions(startbit, endbit, base, maxErrors)|
    ensures forall j :: n0 <= j < n ==>
        Describes(table[j], endbit, Extensions(startbit, endbit, base, maxErrors)[j - n0])
    ensures forall k :: 0 <= k < n0 ==> table[k] == old(table[k])
    decreases endbit - startbit
  {
    hide *;
    n := n0;
    NoExtensions(endbit, base, maxErrors, startbit);
    if errorBit >= maxErrors {
      return;
    }
    tables.ArraysApart(table);
    ghost var all := Extensions(startbit, endbit, base, maxErrors);
    var i := startbit;
    while i < endbit
      invariant startbit <= i
      invariant n0 <= n <= n0 + |all| && all[n - n0..] == Extensions(i, endbit, base, maxErrors)
      invariant tables.Valid()
      invariant forall j :: n0 <= j < n ==> Describes(table[j], endbit, all[j - n0])
      invariant forall k :: 0 <= k < n0 ==> table[k] == old(table[k])
    {
      ghost var taken := Extensions(i + 1, endbit, base + {i}, maxErrors);
      ghost var m := n - n0;
      ExtensionsSplit(i, endbit, base, maxErrors);
      SplitTail(all, m, base + {i}, taken, Extensions(i + 1, endbit, base, maxErrors));
      WithinUpTo(base, startbit, i);
      TakeOrLeave(base, base, i, endbit);
      WithBitDescribes(baseEntry, endbit, base, i);
      tables.SyndromeOfPosition(endbit, i);
      table[n] := WithBit(baseEntry, i, errorBit, tables.singleBitSyndrome[i + offset]);
      n := n + 1;
      n := PrepareSubtable(tables, table, n, maxsize, offset, i + 1, endbit, table[n - 1], errorBit + 1,
                           maxErrors, base + {i});
      i := i + 1;
    }
    NoExtensions(endbit, base, maxErrors, i);
  }

  lemma SplitTail<T>(all: seq<T>, m: nat, x: T, taken: seq<T>, rest: seq<T>)
    requires m <= |all| && all[m..] == [x] + taken + rest
    ensures m + 1 + |taken| <= |all| && all[m] == x && all[m + 1 + |taken|..] == rest
    ensures forall k :: m + 1 <= k < m + 1 + |taken| ==> all[k] == taken[k - m - 1]
  {
    assert all[m] == all[m..][0];
    assert all[m + 1 + |taken|..] == all[m..][1 + |taken|..];
    forall k | m + 1 <= k < m + 1 + |taken|
      ensures all[k] == taken[k - m - 1]
    {
      assert all[k] == all[m..][k - m];
    }
  }
}
