/** The two-generation address filter of icao_filter.c. */
module IcaoFilter {
  import opened AddrHash
  import opened ProbeTable

  const MINBITS: nat := 8
  const MAXBITS: nat := 20

  lemma {:induction false} Pow2AtLeast(n: nat)
    requires n >= MINBITS
    ensures Pow2(n) >= 256
  {
    if n > MINBITS {
      Pow2AtLeast(n - 1);
    } else {
      assert Pow2(4) == 16;
      assert Pow2(8) == 256;
    }
  }

  // ------------------------------------------------------------ the two generations

  // What the filter holds: the addresses since the last expiry and those of the round
  // before, the size of the tables, and how many slots were filled since the expiry.
  datatype FilterState = FilterState(current: set<int>, previous: set<int>, bits: nat, occupied: nat)

  datatype Event = Add(addr: int) | Expire

  // The address is new to the active table, and there is a slot for it.
  predicate Takes(s: FilterState, addr: int) {
    addr !in s.current && |s.current| < Pow2(s.bits)
  }

  // One slot more is too many for the size of the table.
  predicate Grows(s: FilterState, addr: int) {
    Takes(s, addr) && s.occupied + 1 > Pow2(s.bits) / 3 && s.bits < MAXBITS
  }

  function After(s: FilterState, e: Event): FilterState {
    match e
    case Add(addr) =>
      var current := if addr == EMPTY then s.current else s.current + {addr};
      if !Takes(s, addr) then s
      else if Grows(s, addr) then FilterState(current, {}, s.bits + 1, |current|)
      else s.(current := current, occupied := s.occupied + 1)
    case Expire =>
      FilterState({}, s.current, if s.occupied < Pow2(s.bits) / 9 && s.bits > MINBITS then s.bits - 1 else s.bits, 0)
  }

  function AfterAll(s: FilterState, events: seq<Event>): FilterState
    decreases |events|
  {
    if events == [] then s else AfterAll(After(s, events[0]), events[1..])
  }

  predicate KnownIn(s: FilterState, addr: int) {
    addr in s.current + s.previous
  }

  predicate Readded(events: seq<Event>, addr: int) {
    exists i :: 0 <= i < |events| && events[i].Add? && events[i].addr == addr
  }

  // No second expiry, and no growth between the expiry and the end.
  predicate KeepsCurrent(s: FilterState, events: seq<Event>)
    decreases |events|
  {
    events == [] ||
    match events[0]
    case Add(_) => KeepsCurrent(After(s, events[0]), events[1..])
    case Expire => KeepsPrevious(After(s, Expire), events[1..])
  }

  predicate KeepsPrevious(s: FilterState, events: seq<Event>)
    decreases |events|
  {
    events == [] ||
    match events[0]
    case Add(addr) => !Grows(s, addr) && KeepsPrevious(After(s, events[0]), events[1..])
    case Expire => false
  }

  /** An address of the current generation stays known through one expiry; only a growth
      of the table after that expiry, or a second expiry, forgets it. */
  lemma {:induction false} CurrentSurvives(s: FilterState, events: seq<Event>, addr: int)
    requires addr in s.current && !Readded(events, addr)
    ensures KnownIn(AfterAll(s, events), addr) <==> KeepsCurrent(s, events)
    decreases |events|
  {
    if events != [] {
      assert forall i :: 0 <= i < |events[1..]| ==> events[1..][i] == events[i + 1];
      if events[0].Expire? {
        PreviousSurvives(After(s, Expire), events[1..], addr);
      } else {
        CurrentSurvives(After(s, events[0]), events[1..], addr);
      }
    }
  }

  lemma {:induction false} PreviousSurvives(s: FilterState, events: seq<Event>, addr: int)
    requires addr in s.previous && addr !in s.current && !Readded(events, addr)
    ensures KnownIn(AfterAll(s, events), addr) <==> KeepsPrevious(s, events)
    decreases |events|
  {
    if events != [] {
      assert forall i :: 0 <= i < |events[1..]| ==> events[1..][i] == events[i + 1];
      var next := After(s, events[0]);
      if addr in next.previous {
        PreviousSurvives(next, events[1..], addr);
      } else {
        GoneForGood(next, events[1..], addr);
      }
    }
  }

  lemma {:induction false} GoneForGood(s: FilterState, events: seq<Event>, addr: int)
    requires !KnownIn(s, addr) && !Readded(events, addr)
    ensures !KnownIn(AfterAll(s, events), addr)
    decreases |events|
  {
    if events != [] {
      assert forall i :: 0 <= i < |events[1..]| ==> events[1..][i] == events[i + 1];
      assert events[0].Add? ==> events[0].addr != addr;
      GoneForGood(After(s, events[0]), events[1..], addr);
    }
  }

  // The additions that a table still takes without growing.
  function Room(s: FilterState): int {
    Pow2(s.bits) / 3 - s.occupied
  }

  lemma {:induction false} RoomKeepsPrevious(s: FilterState, events: seq<Event>)
    requires |events| <= Room(s) && forall i :: 0 <= i < |events| ==> events[i].Add?
    ensures KeepsPrevious(s, events)
    decreases |events|
  {
    if events != [] {
      assert forall i :: 0 <= i < |events[1..]| ==> events[1..][i] == events[i + 1];
      RoomKeepsPrevious(After(s, events[0]), events[1..]);
    }
  }

  /** An address that is known when the filter expires survives any 85 additions. */
  lemma SurvivesExpiry(s: FilterState, added: seq<Event>, addr: int)
    requires addr in s.current && s.bits >= MINBITS && !Readded(added, addr)
    requires |added| <= 85 && forall i :: 0 <= i < |added| ==> added[i].Add?
    ensures KnownIn(AfterAll(After(s, Expire), added), addr)
  {
    var expired := After(s, Expire);
    Pow2AtLeast(expired.bits);
    RoomKeepsPrevious(expired, added);
    PreviousSurvives(expired, added, addr);
  }

  // -------------------------------------------------------------------- a full table

  const NOTHING: FilterState := FilterState({}, {}, MINBITS, 0)

  // The first n addresses, added one after the other.
  function Additions(n: nat): seq<Event> {
    if n == 0 then [] else Additions(n - 1) + [Add(n - 1)]
  }

  function UpTo(n: nat): set<int> {
    if n == 0 then {} else UpTo(n - 1) + {n - 1}
  }

  lemma {:induction false} UpToHolds(n: nat, x: int)
    ensures x in UpTo(n) <==> 0 <= x < n
  {
    if n > 0 {
      UpToHolds(n - 1, x);
    }
  }

  lemma {:induction false} UpToSize(n: nat)
    ensures |UpTo(n)| == n
  {
    if n > 0 {
      UpToSize(n - 1);
      UpToHolds(n - 1, n - 1);
    }
  }

  lemma {:induction false} AfterLast(s: FilterState, events: seq<Event>, e: Event)
    ensures AfterAll(s, events + [e]) == After(AfterAll(s, events), e)
    decreases |events|
  {
    hide After;
    if events == [] {
      assert [e][1..] == [];
    } else {
      assert (events + [e])[1..] == events[1..] + [e];
      AfterLast(After(s, events[0]), events[1..], e);
    }
  }

  // A state that holds the first n addresses and nothing else was added.
  predicate Filled(s: FilterState, n: nat) {
    && s.current == UpTo(n) && s.occupied == n && MINBITS <= s.bits <= MAXBITS
    && (s.bits < MAXBITS ==> n <= Pow2(s.bits) / 3)
  }

  lemma FillOne(s: FilterState, n: nat)
    requires Filled(s, n) && n < Pow2(MAXBITS) <= EMPTY
    ensures Filled(After(s, Add(n)), n + 1)
  {
    hide Pow2;
    UpToSize(n);
    UpToSize(n + 1);
    UpToHolds(n, n);
    Pow2AtLeast(s.bits);
    if Grows(s, n) {
      DoubleIsEnough(s.bits, n + 1);
    }
  }

  lemma {:induction false} Filling(n: nat)
    requires n <= Pow2(MAXBITS) <= EMPTY
    ensures Filled(AfterAll(NOTHING, Additions(n)), n)
  {
    hide Pow2, Filled, After;
    if n == 0 {
      NothingFilled();
    } else {
      Filling(n - 1);
      FillOne(AfterAll(NOTHING, Additions(n - 1)), n - 1);
      AfterLast(NOTHING, Additions(n - 1), Add(n - 1));
    }
  }

  lemma NothingFilled()
    ensures Filled(NOTHING, 0)
  {
  }

  /** The tables stop growing at 2^20 slots: after as many additions one more address is
      dropped, and is not known. */
  lemma FullDropsAddition()
    ensures var s := AfterAll(NOTHING, Additions(Pow2(MAXBITS)));
      s.bits == MAXBITS && After(s, Add(Pow2(MAXBITS))) == s && Pow2(MAXBITS) !in s.current
  {
    hide Additions, UpTo, AfterAll, Pow2;
    SizeOfLargest();
    Filling(Pow2(MAXBITS));
    UpToSize(Pow2(MAXBITS));
    UpToHolds(Pow2(MAXBITS), Pow2(MAXBITS));
  }

  lemma SizeOfLargest()
    ensures Pow2(MAXBITS) == 1048576 && forall bits: nat :: bits < MAXBITS ==> Pow2(bits) <= 524288
  {
    assert Pow2(5) == 32 && Pow2(10) == 1024 && Pow2(15) == 32768 && Pow2(19) == 524288;
    forall bits: nat | bits < MAXBITS
      ensures Pow2(bits) <= 524288
    {
      SmallerTables(bits, MAXBITS - 1);
    }
  }

  lemma {:induction false} SmallerTables(a: nat, b: nat)
    requires a <= b
    ensures Pow2(a) <= Pow2(b)
    decreases b
  {
    if a < b {
      SmallerTables(a, b - 1);
    }
  }

  /** An address that is added is known, except in that case. */
  lemma AddedIsKnown(s: FilterState, addr: int)
    requires addr != EMPTY
    ensures addr in After(s, Add(addr)).current <==> addr in s.current || |s.current| < Pow2(s.bits)
  {
  }

  // ------------------------------------------------------------------- the tables

  /** Where a probe stops decides whether the table takes the address. */
  lemma Decided(s: FilterState, t: seq<int>, hash: int -> nat, addr: int, h: nat, full: bool, d: nat)
    requires WellPlaced(t, hash) && |t| == Pow2(s.bits) && s.current == Stored(t) && Used(t) == |Stored(t)|
    requires hash(addr) < |t| && h < |t|
    requires full ==> Passed(t, hash(addr), addr, |t|)
    requires !full ==> d < |t| && h == Slot(hash(addr), d, |t|) && Passed(t, hash(addr), addr, d)
    requires !full ==> t[h] == EMPTY || t[h] == addr
    ensures Takes(s, addr) <==> !full && t[h] == EMPTY
    ensures Takes(s, addr) && addr != EMPTY ==>
      var u := t[h := addr];
      WellPlaced(u, hash) && Stored(u) == Stored(t) + {addr} && Used(u) == Used(t) + 1 == |Stored(u)|
  {
    hide Used, Slot, WellPlaced, Passed;
    UsedBound(t);
    if full {
      FullRound(t, hash(addr), addr);
    } else if t[h] == EMPTY && addr != EMPTY {
      StoppedAtEmpty(t, hash, addr, d);
      PlacedAtEnd(t, hash, addr, d);
    }
  }

  class Filter {
    // addrHash before it is masked to the requested width
    const mix: (int, nat) -> nat
    var filterBits: nat
    var filterBuckets: nat
    var tableA: array<int>
    var tableB: array<int>
    var active: array<int>
    var occupied: nat

    function Hash(addr: int): nat
      reads this`filterBits
    {
      Masked(mix(addr, filterBits), filterBits)
    }

    ghost function HashFunction(): int -> nat
      reads this`filterBits
    {
      var bits, f := filterBits, mix;
      x => Masked(f(x, bits), bits)
    }

    ghost function Inactive(): array<int>
      reads this`tableA, this`tableB, this`active
    {
      if active == tableA then tableB else tableA
    }

    // The addresses added since the last expiry, and those of the round before.
    ghost function Current(): set<int>
      reads this`active, active
    {
      Stored(active[..])
    }

    ghost function Previous(): set<int>
      reads this, tableA, tableB
    {
      Stored(Inactive()[..])
    }

    ghost function State(): FilterState
      reads this, tableA, tableB, active
    {
      FilterState(Current(), Previous(), filterBits, occupied)
    }

    ghost predicate Shape()
      reads this
    {
      MINBITS <= filterBits <= MAXBITS && filterBuckets == Pow2(filterBits) &&
      tableA != tableB && (active == tableA || active == tableB) &&
      tableA.Length == filterBuckets && tableB.Length == filterBuckets
    }

    // All but the bound on how full the active table is.
    ghost predicate Placed()
      reads this, tableA, tableB
    {
      Shape() && filterBuckets >= 256 &&
      WellPlaced(active[..], HashFunction()) && WellPlaced(Inactive()[..], HashFunction()) &&
      Used(active[..]) == |Current()| <= occupied
    }

    // Below the largest size no table is ever more than a third full.
    ghost predicate Valid()
      reads this, tableA, tableB
    {
      Placed() &&
      (filterBits < MAXBITS ==> occupied <= filterBuckets / 3 && Used(Inactive()[..]) <= filterBuckets / 3)
    }

    /** Below the largest size both tables always have an empty slot, so every probe ends
        before it has gone all the way round. */
    lemma AlwaysAnEmptySlot()
      requires Valid() && filterBits < MAXBITS
      ensures EMPTY in tableA[..] && EMPTY in tableB[..]
    {
      UsedBound(tableA[..]);
      UsedBound(tableB[..]);
    }

    /** icaoFilterInit */
    constructor (mix: (int, nat) -> nat)
      ensures Valid() && fresh(tableA) && fresh(tableB)
      ensures State() == FilterState({}, {}, MINBITS, 0) && this.mix == mix
    {
      this.mix := mix;
      filterBits := MINBITS;
      filterBuckets := 256;
      tableA := new int[256](_ => EMPTY);
      tableB := new int[256](_ => EMPTY);
      active := tableA;
      occupied := 0;
      new;
      Pow2AtLeast(MINBITS);
      assert Pow2(4) == 16;
      assert tableA[..] == seq(256, _ => EMPTY) && tableB[..] == seq(256, _ => EMPTY);
      ClearedTable(256, HashFunction());
    }

    // The probing loop that Add and Test share: it stops at addr, at an empty slot,
    // or after a full round.
    method Probe(table: array<int>, addr: int) returns (h: nat, full: bool, ghost d: nat)
      requires table.Length == filterBuckets == Pow2(filterBits) && filterBuckets > 0
      ensures h < table.Length
      ensures full ==> Passed(table[..], Hash(addr), addr, table.Length)
      ensures !full ==> d < table.Length && h == Slot(Hash(addr), d, table.Length)
      ensures !full ==> Passed(table[..], Hash(addr), addr, d) && (table[h] == EMPTY || table[h] == addr)
    {
      hide Slot;
      ghost var t := table[..];
      var h0 := Hash(addr);
      h, d := h0, 0;
      NextSlot(h0, 0, table.Length);
      while table[h] != EMPTY && table[h] != addr
        invariant d < table.Length && h < table.Length && h == Slot(h0, d, table.Length)
        invariant Passed(t, h0, addr, d)
        decreases table.Length - d
      {
        h := (h + 1) % filterBuckets;
        d := d + 1;
        NextSlot(h0, d - 1, table.Length);
        if h == h0 {
          return h, true, d;
        }
      }
      full := false;
    }

    /** icaoFilterTest: answers for the addresses of both generations. The value that
        marks empty slots is the only one that is found without having been added. */
    method IcaoFilterTest(addr: int) returns (known: bool)
      requires Valid()
      ensures addr != EMPTY ==> (known <==> addr in Current() + Previous())
      ensures addr == EMPTY ==> (known <==> EMPTY in tableA[..] || EMPTY in tableB[..])
    {
      var inA := TestTable(tableA, addr);
      if inA {
        return true;
      }
      var inB := TestTable(tableB, addr);
      return inB;
    }

    method TestTable(table: array<int>, addr: int) returns (found: bool)
      requires Valid() && (table == tableA || table == tableB)
      ensures found <==> addr in table[..]
    {
      hide Slot, Used;
      var h, full, d := Probe(table, addr);
      if full {
        FullRound(table[..], Hash(addr), addr);
      } else if table[h] == EMPTY && addr != EMPTY {
        StoppedAtEmpty(table[..], HashFunction(), addr, d);
      }
      return table[h] == addr;
    }

    // The first half of icaoFilterAdd: store the address unless it is there already.
    method Store(addr: int)
      requires Placed()
      modifies active, this`occupied
      ensures Placed() && unchanged(this`filterBits)
      ensures Previous() == old(Previous()) && Used(Inactive()[..]) == old(Used(Inactive()[..]))
      ensures occupied == old(occupied) + if old(Takes(State(), addr)) then 1 else 0
      ensures Current() == old(Current()) + if old(Takes(State(), addr)) && addr != EMPTY then {addr} else {}
    {
      hide Slot, Used, Stored, WellPlaced, Passed, Takes, Masked, Pow2;
      var h, full, d := Probe(active, addr);
      Decided(State(), active[..], HashFunction(), addr, h, full, d);
      if !full && active[h] == EMPTY {
        Fill(h, addr);
      }
    }

    // An empty slot is filled.
    method Fill(h: nat, addr: int)
      requires Placed() && h < active.Length && active[h] == EMPTY
      requires addr != EMPTY ==>
        var u := active[..][h := addr];
        WellPlaced(u, HashFunction()) && Stored(u) == Current() + {addr} &&
        Used(u) == |Stored(u)| == Used(active[..]) + 1
      modifies active, this`occupied
      ensures Placed() && unchanged(this`filterBits)
      ensures Previous() == old(Previous()) && Used(Inactive()[..]) == old(Used(Inactive()[..]))
      ensures occupied == old(occupied) + 1
      ensures Current() == old(Current()) + if addr != EMPTY then {addr} else {}
    {
      hide Used, Stored, WellPlaced, Masked, Pow2;
      ghost var t, other := active[..], Inactive();
      occupied := occupied + 1;
      active[h] := addr;
      assert active[..] == t[h := addr];
      assert addr == EMPTY ==> active[..] == t;
      assert other[..] == old(other[..]);
    }

    /** icaoFilterAdd. The ghost argument is zero for the calls that icaoFilterResize
        makes, which never lead to another resize. */
    method IcaoFilterAdd(addr: int, ghost depth: nat)
      requires Valid()
      requires depth == 0 ==> occupied + 1 <= filterBuckets / 3 || filterBits == MAXBITS
      modifies this, tableA, tableB
      ensures Valid()
      ensures State() == After(old(State()), Add(addr))
      ensures old(Grows(State(), addr)) ==> depth > 0 && fresh(tableA) && fresh(tableB)
      ensures !old(Grows(State(), addr)) ==> tableA == old(tableA) && tableB == old(tableB) && active == old(active)
      decreases depth, 1
    {
      hide Used, Stored, WellPlaced, Masked, Pow2, Takes;
      Store(addr);
      if occupied > filterBuckets / 3 && filterBits < 20 {
        DoubleIsEnough(filterBits, occupied);
        IcaoFilterResize(filterBits + 1, depth);
      }
    }

    // Replaces both tables by empty ones of the given size.
    method NewTables(bits: nat)
      requires MINBITS <= bits <= MAXBITS
      modifies this
      ensures Valid() && fresh(tableA) && fresh(tableB) && occupied == 0
      ensures State() == FilterState({}, {}, bits, 0)
    {
      hide Used, Stored, WellPlaced;
      filterBits := bits;
      filterBuckets := Pow2(bits);
      Pow2AtLeast(bits);
      tableA := new int[filterBuckets](_ => EMPTY);
      tableB := new int[filterBuckets](_ => EMPTY);
      occupied := 0;
      active := tableA;
      assert tableA[..] == seq(filterBuckets, _ => EMPTY) && tableB[..] == seq(filterBuckets, _ => EMPTY);
      ClearedTable(filterBuckets, HashFunction());
    }

    /** icaoFilterResize: the active set survives, the previous generation does not. */
    method IcaoFilterResize(bits: nat, ghost depth: nat)
      requires Placed() && depth > 0 && MINBITS <= bits <= MAXBITS
      requires Used(active[..]) <= Pow2(bits) / 3
      modifies this, tableA, tableB
      ensures Valid() && fresh(tableA) && fresh(tableB)
      ensures State() == FilterState(old(Current()), {}, bits, |old(Current())|)
      decreases depth, 0
    {
      hide Used, Stored, WellPlaced, Masked, Pow2, After, Grows;
      var oldBuckets := filterBuckets;
      var oldActive := active;
      ghost var t := oldActive[..];
      NewTables(bits);
      ghost var freshA, freshB := tableA, tableB;
      PrefixStart(t);
      for i := 0 to oldBuckets
        invariant Valid() && filterBits == bits
        invariant tableA == freshA && tableB == freshB
        invariant oldActive[..] == t && |t| == oldBuckets
        invariant State() == FilterState(Stored(t[..i]), {}, bits, |Stored(t[..i])|)
      {
        StoredPrefix(t, i);
        UsedPrefix(t, i + 1);
        assert oldActive[i] == t[i];
        if oldActive[i] != EMPTY {
          StoredAtMost(t[..i]);
          Reinserted(State(), t[i]);
          IcaoFilterAdd(oldActive[i], 0);
        }
      }
      assert t[..oldBuckets] == t;
    }

    static method ClearTable(table: array<int>)
      modifies table
      ensures table[..] == seq(table.Length, _ => EMPTY)
    {
      for i := 0 to table.Length
        invariant forall k :: 0 <= k < i ==> table[k] == EMPTY
      {
        table[i] := EMPTY;
      }
    }

    // icaoFilterExpire after the table has been shrunk, if it was.
    method SwitchTables()
      requires Valid()
      modifies this`occupied, this`active, tableA, tableB
      ensures Valid() && State() == FilterState({}, old(Current()), old(filterBits), 0)
    {
      hide Used, Stored, WellPlaced;
      ghost var t := active[..];
      var oldActive := active;
      ClearedTable(filterBuckets, HashFunction());
      occupied := 0;
      if active == tableA {
        ClearTable(tableB);
        active := tableB;
      } else {
        ClearTable(tableA);
        active := tableA;
      }
      assert Inactive() == oldActive && oldActive[..] == t;
    }

    /** icaoFilterExpire: the current generation becomes the previous one. */
    method IcaoFilterExpire()
      requires Valid()
      modifies this, tableA, tableB
      ensures Valid() && State() == After(old(State()), Expire)
    {
      hide Used, Stored, WellPlaced;
      if occupied < filterBuckets / 9 && filterBits > MINBITS {
        HalfIsEnough(filterBits, occupied);
        IcaoFilterResize(filterBits - 1, 1);
      }
      SwitchTables();
    }
  }

  lemma HalfIsEnough(bits: nat, occupied: nat)
    requires bits > MINBITS && occupied < Pow2(bits) / 9
    ensures occupied <= Pow2(bits - 1) / 3
  {
    assert Pow2(bits) == 2 * Pow2(bits - 1);
  }

  lemma DoubleIsEnough(bits: nat, occupied: nat)
    requires bits >= MINBITS && occupied <= Pow2(bits) / 3 + 1
    ensures occupied <= Pow2(bits + 1) / 3
  {
    Pow2AtLeast(bits);
  }

  // An address of the old table, added to a new one that has room.
  lemma Reinserted(s: FilterState, addr: int)
    requires s.occupied == |s.current| && s.occupied + 1 <= Pow2(s.bits) / 3 && addr != EMPTY
    ensures !Grows(s, addr)
    ensures After(s, Add(addr)) == s.(current := s.current + {addr}, occupied := |s.current + {addr}|)
  {
    hide Pow2;
    if addr in s.current {
      assert s.current + {addr} == s.current;
    }
  }

  lemma {:induction false} StoredAtMost(t: seq<int>)
    ensures |Stored(t)| <= Used(t)
  {
    if t == [] {
      assert Stored(t) == {};
    } else {
      var n := |t| - 1;
      StoredAtMost(t[..n]);
      StoredPrefix(t, n);
      assert t[..n + 1] == t;
    }
  }

  lemma PrefixStart(t: seq<int>)
    ensures Used(t[..0]) == 0 && Stored(t[..0]) == {}
  {
  }

  lemma {:induction false} UsedPrefix(t: seq<int>, i: nat)
    requires i <= |t|
    ensures Used(t[..i]) <= Used(t)
    ensures i > 0 ==> Used(t[..i]) == Used(t[..i - 1]) + if t[i - 1] != EMPTY then 1 else 0
    decreases |t| - i
  {
    if i > 0 {
      assert t[..i][..i - 1] == t[..i - 1];
    }
    if i == |t| {
      assert t[..i] == t;
    } else {
      UsedPrefix(t, i + 1);
      assert t[..i + 1][..i] == t[..i];
    }
  }

  lemma StoredPrefix(t: seq<int>, i: nat)
    requires i < |t|
    ensures Stored(t[..i + 1]) == Stored(t[..i]) + if t[i] != EMPTY then {t[i]} else {}
  {
    assert t[..i + 1] == t[..i] + [t[i]];
  }
}
