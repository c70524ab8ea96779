/** Open addressing with linear probing, on the contents of one table of icao_filter.c. */
module ProbeTable {

  const EMPTY: int := 0xffff_ffff

  // The d-th slot that a probe starting at h0 looks at, in its first round.
  function Slot(h0: nat, d: nat, n: nat): nat
    requires n > 0
    ensures Slot(h0, d, n) < n
  {
    if h0 + d < n then h0 + d else if h0 + d < 2 * n then h0 + d - n else 0
  }

  lemma NextSlot(h0: nat, d: nat, n: nat)
    requires h0 < n && d < n
    ensures Slot(h0, d + 1, n) == (Slot(h0, d, n) + 1) % n
    ensures Slot(h0, d + 1, n) == h0 <==> d + 1 == n
    ensures Slot(h0, 0, n) == h0
  {
    var s := Slot(h0, d, n);
    if s + 1 < n {
      assert (s + 1) % n == s + 1;
    } else {
      assert s + 1 == n;
    }
  }

  // The first d slots of the probe hold other addresses.
  ghost predicate Passed(t: seq<int>, h0: nat, x: int, d: nat) {
    |t| > 0 && forall e :: 0 <= e < d ==> t[Slot(h0, e, |t|)] != EMPTY && t[Slot(h0, e, |t|)] != x
  }

  // Probing for x from h0 stops at x within one round.
  ghost predicate Finds(t: seq<int>, h0: nat, x: int) {
    exists d: nat :: d < |t| && Passed(t, h0, x, d) && t[Slot(h0, d, |t|)] == x
  }

  // Every stored address can be found from its hash.
  ghost predicate WellPlaced(t: seq<int>, hash: int -> nat) {
    |t| > 0 && forall x :: x in t && x != EMPTY ==> Finds(t, hash(x), x)
  }

  function Used(t: seq<int>): nat {
    if t == [] then 0 else Used(t[..|t| - 1]) + if t[|t| - 1] != EMPTY then 1 else 0
  }

  function Stored(t: seq<int>): set<int> {
    set x | x in t && x != EMPTY
  }

  lemma {:induction false} UsedBound(t: seq<int>)
    ensures Used(t) <= |t|
    ensures Used(t) == |t| <==> EMPTY !in t
  {
    if t != [] {
      UsedBound(t[..|t| - 1]);
      assert t == t[..|t| - 1] + [t[|t| - 1]];
    }
  }

  lemma {:induction false} UsedUpdate(t: seq<int>, i: nat, x: int)
    requires i < |t| && t[i] == EMPTY && x != EMPTY
    ensures Used(t[i := x]) == Used(t) + 1
  {
    var u := t[i := x];
    if i == |t| - 1 {
      assert u[..|t| - 1] == t[..|t| - 1];
    } else {
      UsedUpdate(t[..|t| - 1], i, x);
      assert u[..|t| - 1] == t[..|t| - 1][i := x];
    }
  }

  lemma {:induction false} UsedNone(n: nat)
    ensures Used(seq(n, _ => EMPTY)) == 0
  {
    if n > 0 {
      UsedNone(n - 1);
      assert seq(n, _ => EMPTY)[..n - 1] == seq(n - 1, _ => EMPTY);
    }
  }

  // n consecutive slots are all the slots.
  lemma SlotsCover(h0: nat, n: nat, i: nat)
    requires i < n && h0 < n
    ensures exists d: nat :: d < n && Slot(h0, d, n) == i
  {
    var d := if i >= h0 then i - h0 else i + n - h0;
    assert Slot(h0, d, n) == i;
  }

  /** A probe that went all the way round has seen every slot. */
  lemma FullRound(t: seq<int>, h0: nat, x: int)
    requires h0 < |t| && Passed(t, h0, x, |t|)
    ensures x !in t && EMPTY !in t
  {
    if i :| 0 <= i < |t| && (t[i] == x || t[i] == EMPTY) {
      SlotsCover(h0, |t|, i);
    }
  }

  /** Where a probe stops at an empty slot, the address is not stored at all. */
  lemma StoppedAtEmpty(t: seq<int>, hash: int -> nat, x: int, d: nat)
    requires WellPlaced(t, hash) && x != EMPTY && d < |t|
    requires Passed(t, hash(x), x, d) && t[Slot(hash(x), d, |t|)] == EMPTY
    ensures x !in t
  {
  }

  /** Filling the empty slot at the end of a probe keeps every address findable. */
  lemma PlacedAtEnd(t: seq<int>, hash: int -> nat, x: int, d: nat)
    requires WellPlaced(t, hash) && x != EMPTY && d < |t|
    requires Passed(t, hash(x), x, d) && t[Slot(hash(x), d, |t|)] == EMPTY
    ensures var u := t[Slot(hash(x), d, |t|) := x];
      WellPlaced(u, hash) && Stored(u) == Stored(t) + {x} && Used(u) == Used(t) + 1
  {
    hide Used, Slot;
    var s := Slot(hash(x), d, |t|);
    var u := t[s := x];
    UsedUpdate(t, s, x);
    StoppedAtEmpty(t, hash, x, d);
    forall y | y in u && y != EMPTY
      ensures Finds(u, hash(y), y)
    {
      if y == x {
        assert Passed(u, hash(x), x, d);
      } else {
        var e: nat :| e < |t| && Passed(t, hash(y), y, e) && t[Slot(hash(y), e, |t|)] == y;
        assert Passed(u, hash(y), y, e);
        assert u[Slot(hash(y), e, |t|)] == y;
      }
    }
    assert u[s] == x;
    forall y
      ensures y in Stored(u) <==> y in Stored(t) + {x}
    {
      if y in t && y != EMPTY {
        var k :| 0 <= k < |t| && t[k] == y;
        assert u[k] == y;
      }
    }
  }

  lemma ClearedTable(n: nat, hash: int -> nat)
    requires n > 0
    ensures var t := seq(n, _ => EMPTY); WellPlaced(t, hash) && Stored(t) == {} && Used(t) == 0
  {
    UsedNone(n);
  }
}
