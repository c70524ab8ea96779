/** flagCollisions of crc.c: marking the table entries whose syndrome is also that of
    a larger error pattern, and removing them. */
module CollisionFlags {
  import opened Polynomial
  import opened MessageBits
  import opened Checksum
  import opened Patterns
  import opened ErrorTable

  const FLAGGED := -1

  function Flag(e: ErrorInfo): ErrorInfo {
    e.(errors := FLAGGED)
  }

  function FlagIf(e: ErrorInfo, hit: bool): ErrorInfo {
    if hit then Flag(e) else e
  }

  function SyndromeKey(syndrome: bv32): int {
    syndrome as int
  }

  // Some pattern of first to last errors that extends base by positions of
  // [start, n), the lowest of them below stop, has this syndrome.
  ghost predicate Hit(n: nat, base: set<nat>, start: nat, stop: nat, first: nat, last: nat, key: int) {
    exists t :: HitBy(t, n, base, start, stop, first, last, key)
  }

  ghost predicate HitBy(t: set<nat>, n: nat, base: set<nat>, start: nat, stop: nat, first: nat, last: nat, key: int) {
    Extends(t, base, start, n) && !Extends(t, base, stop, n) && first <= |t| <= last &&
    SyndromeKey(PatternSyndrome(n, t)) == key
  }

  lemma HitNone(n: nat, base: set<nat>, start: nat, first: nat, last: nat, key: int)
    ensures !Hit(n, base, start, start, first, last, key)
  {
  }

  lemma HitTooLarge(n: nat, base: set<nat>, start: nat, stop: nat, first: nat, last: nat, key: int)
    requires |base| >= last || start >= n
    ensures !Hit(n, base, start, stop, first, last, key)
  {
    if t :| HitBy(t, n, base, start, stop, first, last, key) {
      ExtendsSize(t, base, start, n);
    }
  }

  // The patterns whose lowest new position is i.
  lemma HitStep(n: nat, base: set<nat>, start: nat, i: nat, first: nat, last: nat, key: int)
    requires Within(base, 0, start) && start <= i < n
    ensures Hit(n, base, start, i + 1, first, last, key) <==>
      Hit(n, base, start, i, first, last, key) ||
      (first <= |base| + 1 <= last && SyndromeKey(PatternSyndrome(n, base + {i})) == key) ||
      Hit(n, base + {i}, i + 1, n, first, last, key)
  {
    hide PatternSyndrome, SyndromeKey, Extends, Within, HitBy;
    WithinUpTo(base, start, i);
    if Hit(n, base, start, i + 1, first, last, key) {
      var t :| HitBy(t, n, base, start, i + 1, first, last, key);
      HitCases(t, n, base, start, i, first, last, key);
    }
    if Hit(n, base, start, i, first, last, key) {
      var t :| HitBy(t, n, base, start, i, first, last, key);
      HitCases(t, n, base, start, i, first, last, key);
    }
    if first <= |base| + 1 <= last && SyndromeKey(PatternSyndrome(n, base + {i})) == key {
      HitCases(base + {i}, n, base, start, i, first, last, key);
    }
    if Hit(n, base + {i}, i + 1, n, first, last, key) {
      var t :| HitBy(t, n, base + {i}, i + 1, n, first, last, key);
      HitCases(t, n, base, start, i, first, last, key);
    }
  }

  lemma HitCases(t: set<nat>, n: nat, base: set<nat>, start: nat, i: nat, first: nat, last: nat, key: int)
    requires Within(base, 0, i) && start <= i < n
    ensures |base + {i}| == |base| + 1
    ensures HitBy(t, n, base, start, i + 1, first, last, key) <==>
      HitBy(t, n, base, start, i, first, last, key) ||
      (t == base + {i} && first <= |t| <= last && SyndromeKey(PatternSyndrome(n, t)) == key) ||
      HitBy(t, n, base + {i}, i + 1, n, first, last, key)
  {
    hide PatternSyndrome, SyndromeKey, Extends, Within;
    TakeOrLeave(t, base, i, n);
    ExtendsFrom(t, base, start, i, n);
    ExtendsFrom(t, base + {i}, n, n, n);
    if Extends(t, base + {i}, n, n) {
      ExtendsSize(t, base + {i}, n, n);
    }
    if Extends(t, base, i + 1, n) {
      ExtendsFrom(t, base, i, i + 1, n);
    }
  }

  lemma ExtendsFrom(t: set<nat>, base: set<nat>, start: nat, i: nat, n: nat)
    requires start <= i
    ensures Extends(t, base, i, n) ==> Extends(t, base, start, n)
  {
  }

  // ------------------------------------------------------------- searching

  /** Stands for the library's bsearch with syndrome_compare; only its contract is used. */
  method BSearch(syndrome: bv32, table: array<ErrorInfo>, size: nat) returns (found: bool, index: nat)
    requires size <= table.Length && StrictlySorted(table[..size])
    ensures found ==> index < size && Key(table[index]) == SyndromeKey(syndrome)
    ensures !found ==> forall k :: 0 <= k < size ==> Key(table[k]) != SyndromeKey(syndrome)
  {
    hide Key, SyndromeKey;
    ghost var s := table[..size];
    var lo, hi := 0, size;
    while lo < hi
      invariant 0 <= lo <= hi <= size
      invariant forall k :: 0 <= k < lo ==> Key(s[k]) < SyndromeKey(syndrome)
      invariant forall k :: hi <= k < size ==> Key(s[k]) > SyndromeKey(syndrome)
    {
      var mid := (lo + hi) / 2;
      assert table[mid] == s[mid];
      if Key(table[mid]) < SyndromeKey(syndrome) {
        lo := mid + 1;
      } else if Key(table[mid]) > SyndromeKey(syndrome) {
        hi := mid;
      } else {
        return true, mid;
      }
    }
    assert forall k :: 0 <= k < size ==> table[k] == s[k];
    return false, 0;
  }

  // -------------------------------------------------------------- flagging

  function CountFlagged(s: seq<ErrorInfo>): nat {
    if s == [] then 0
    else CountFlagged(s[..|s| - 1]) + if s[|s| - 1].errors == FLAGGED then 1 else 0
  }

  lemma {:induction false} CountFlaggedUpdate(s: seq<ErrorInfo>, i: nat)
    requires i < |s| && s[i].errors != FLAGGED
    ensures CountFlagged(s[i := Flag(s[i])]) == CountFlagged(s) + 1
  {
    var t := s[i := Flag(s[i])];
    if i == |s| - 1 {
      assert t[..|s| - 1] == s[..|s| - 1];
    } else {
      CountFlaggedUpdate(s[..|s| - 1], i);
      assert t[..|s| - 1] == s[..|s| - 1][i := Flag(s[i])];
    }
  }

  lemma {:induction false} CountFlaggedZero(s: seq<ErrorInfo>)
    ensures CountFlagged(s) == 0 <==> forall k :: 0 <= k < |s| ==> s[k].errors != FLAGGED
  {
    if s != [] {
      CountFlaggedZero(s[..|s| - 1]);
    }
  }

  // s with the entries hit by some larger pattern flagged.
  ghost predicate FlaggedFrom(t: seq<ErrorInfo>, s: seq<ErrorInfo>, n: nat, base: set<nat>, start: nat, stop: nat,
                              first: nat, last: nat) {
    |t| == |s| && forall k :: 0 <= k < |s| ==> t[k] == FlagIf(s[k], Hit(n, base, start, stop, first, last, Key(s[k])))
  }

  lemma FlaggedKeepsOrder(t: seq<ErrorInfo>, s: seq<ErrorInfo>, n: nat, base: set<nat>, start: nat, stop: nat,
                          first: nat, last: nat)
    requires StrictlySorted(s) && FlaggedFrom(t, s, n, base, start, stop, first, last)
    ensures StrictlySorted(t)
  {
    hide Hit;
  }

  // One more lowest position: the pattern base + {i} itself, then those above it.
  lemma FlaggedStep(s0: seq<ErrorInfo>, s: seq<ErrorInfo>, t: seq<ErrorInfo>, u: seq<ErrorInfo>,
                    n: nat, base: set<nat>, start: nat, i: nat, first: nat, last: nat)
    requires Within(base, 0, start) && start <= i < n && |base| < last
    requires FlaggedFrom(s, s0, n, base, start, i, first, last)
    requires |t| == |s| && forall k :: 0 <= k < |s| ==>
      t[k] == FlagIf(s[k], first <= |base| + 1 && SyndromeKey(PatternSyndrome(n, base + {i})) == Key(s[k]))
    requires FlaggedFrom(u, t, n, base + {i}, i + 1, n, first, last)
    ensures FlaggedFrom(u, s0, n, base, start, i + 1, first, last)
  {
    hide Hit, PatternSyndrome, Within;
    forall k | 0 <= k < |s0|
      ensures u[k] == FlagIf(s0[k], Hit(n, base, start, i + 1, first, last, Key(s0[k])))
    {
      HitStep(n, base, start, i, first, last, Key(s0[k]));
      FlagKeepsKey(s0[k]);
    }
  }

  lemma FlagKeepsKey(e: ErrorInfo)
    ensures Key(Flag(e)) == Key(e)
  {
  }

  method FlagOne(table: array<ErrorInfo>, size: nat, syndrome: bv32) returns (count: nat)
    requires size <= table.Length && StrictlySorted(table[..size])
    modifies table
    ensures forall k :: 0 <= k < size ==> table[k] == FlagIf(old(table[k]), SyndromeKey(syndrome) == Key(old(table[k])))
    ensures StrictlySorted(table[..size])
    ensures CountFlagged(table[..size]) == CountFlagged(old(table[..size])) + count
  {
    hide Key, SyndromeKey, CountFlagged;
    count := 0;
    var found, index := BSearch(syndrome, table, size);
    ghost var s := table[..size];
    assert forall k :: 0 <= k < size ==> s[k] == table[k];
    assert found ==> forall k :: 0 <= k < size && k != index ==> Key(s[k]) != Key(s[index]);
    if found && table[index].errors != FLAGGED {
      count := count + 1;
      CountFlaggedUpdate(s, index);
      FlagKeepsKey(s[index]);
      table[index] := Flag(table[index]);
      assert table[..size] == s[index := Flag(s[index])];
    }
  }

  method FlagCollisions(tables: LookupTables, table: array<ErrorInfo>, tablesize: nat, offset: nat,
                        startbit: nat, endbit: nat, baseSyndrome: bv32, errorBit: nat,
                        firstError: nat, lastError: nat, ghost base: set<nat>)
    returns (count: nat)
    requires tables.Valid() && table !in tables.Arrays() && offset + endbit == LONG_MSG_BITS
    requires tablesize <= table.Length && StrictlySorted(table[..tablesize])
    requires Within(base, 0, startbit) && errorBit == |base| + 1
    requires baseSyndrome == PatternSyndrome(endbit, base)
    modifies table
    ensures FlaggedFrom(table[..tablesize], old(table[..tablesize]), endbit, base, startbit, endbit, firstError,
        lastError)
    ensures CountFlagged(table[..tablesize]) == CountFlagged(old(table[..tablesize])) + count
    decreases endbit - startbit
  {
    hide *;
    count := 0;
    ghost var s0 := table[..tablesize];
    tables.ArraysApart(table);
    NothingFlagged(s0, endbit, base, startbit, endbit, firstError, lastError);
    if errorBit > lastError {
      return;
    }
    NothingFlagged(s0, endbit, base, startbit, startbit, firstError, lastError);
    var i := startbit;
    while i < endbit
      invariant startbit <= i && (i <= endbit || (i == startbit && table[..tablesize] == s0))
      invariant tables.Valid()
      invariant FlaggedFrom(table[..tablesize], s0, endbit, base, startbit, i, firstError, lastError)
      invariant CountFlagged(table[..tablesize]) == CountFlagged(s0) + count
    {
      ghost var s := table[..tablesize];
      tables.SyndromeOfPosition(endbit, i);
      WithinUpTo(base, startbit, i);
      TakeOrLeave(base, base, i, endbit);
      PatternSyndromeInsert(endbit, base, i);
      var eiSyndrome := Plus(baseSyndrome, tables.singleBitSyndrome[i + offset]);
      FlaggedKeepsOrder(s, s0, endbit, base, startbit, i, firstError, lastError);
      if errorBit >= firstError {
        var c := FlagOne(table, tablesize, eiSyndrome);
        count := count + c;
      } else {
        NotFlagged(s, SyndromeKey(eiSyndrome));
      }
      ghost var t := table[..tablesize];
      var c := FlagCollisions(tables, table, tablesize, offset, i + 1, endbit, eiSyndrome, errorBit + 1,
                              firstError, lastError, base + {i});
      count := count + c;
      FlaggedStep(s0, s, t, table[..tablesize], endbit, base, startbit, i, firstError, lastError);
      i := i + 1;
    }
  }

  lemma NotFlagged(s: seq<ErrorInfo>, key: int)
    ensures forall k :: 0 <= k < |s| ==> s[k] == FlagIf(s[k], false && key == Key(s[k]))
  {
  }

  lemma NothingFlagged(s: seq<ErrorInfo>, n: nat, base: set<nat>, start: nat, stop: nat, first: nat, last: nat)
    ensures start >= n || |base| >= last || start == stop ==> FlaggedFrom(s, s, n, base, start, stop, first, last)
  {
    hide Hit;
    if start >= n || |base| >= last || start == stop {
      forall k | 0 <= k < |s|
        ensures !Hit(n, base, start, stop, first, last, Key(s[k]))
      {
        HitNone(n, base, start, first, last, Key(s[k]));
        if start >= n || |base| >= last {
          HitTooLarge(n, base, start, stop, first, last, Key(s[k]));
        }
      }
    }
  }
}
