/** The aircraft of aircraft.c: slots in blocks of memory, hash chains that link the live
    ones, a list of the freed ones, and the quick cache in front of the chains. */
module AircraftTable {
  import opened Basics
  import opened AddrHash

  // A pointer is the number of a slot; all blocks together are one memory.
  const NULL: int := -1
  // A pointer of bytes 0xFF.
  const WILD: int := -2
  const EMPTY: nat := 0xFFFF_FFFF
  const QUICK_MIN_BITS: nat := 8
  const QUICK_MAX_BITS: nat := 16
  const QUICK_STRIDE: nat := 8

  datatype Aircraft = Aircraft(addr: nat, next: int, onActiveList: bool)
  datatype Ap = Ap(addr: nat, ptr: int)

  // The bucket of an address.
  function Hashed(mix: (nat, nat) -> nat, addr: nat, bits: nat): (h: nat)
    ensures h < Pow2(bits)
  {
    Masked(mix(addr, bits), bits)
  }

  // ------------------------------------------------------------------- linked lists

  // The slots that are reached from head, in order.
  ghost predicate Linked(mem: seq<Aircraft>, head: int, chain: seq<nat>) {
    && head == First(chain, 0)
    && forall i :: 0 <= i < |chain| ==> chain[i] < |mem| && mem[chain[i]].next == First(chain, i + 1)
  }

  ghost function First(chain: seq<nat>, i: nat): int {
    if i < |chain| then chain[i] else NULL
  }

  // Memory may change outside of a list.
  lemma LinkedFrame(mem: seq<Aircraft>, changed: seq<Aircraft>, head: int, chain: seq<nat>)
    requires Linked(mem, head, chain) && |mem| <= |changed|
    requires forall i :: 0 <= i < |chain| && chain[i] < |mem| ==> changed[chain[i]] == mem[chain[i]]
    ensures Linked(changed, head, chain)
  {
  }

  lemma LinkedPush(mem: seq<Aircraft>, head: int, chain: seq<nat>, x: nat)
    requires Linked(mem, head, chain) && x < |mem| && mem[x].next == head
    ensures Linked(mem, x, [x] + chain)
  {
    var longer := [x] + chain;
    forall i | 0 <= i < |longer|
      ensures longer[i] < |mem| && mem[longer[i]].next == First(longer, i + 1)
    {
      if i > 0 {
        assert longer[i] == chain[i - 1];
      }
    }
  }

  lemma LinkedPop(mem: seq<Aircraft>, head: int, chain: seq<nat>)
    requires Linked(mem, head, chain) && chain != []
    ensures Linked(mem, mem[chain[0]].next, chain[1..])
  {
    var rest := chain[1..];
    assert forall i :: 0 <= i < |rest| ==> rest[i] == chain[i + 1];
  }

  /** Unlinking the element behind position i - 1. */
  lemma LinkedWithout(mem: seq<Aircraft>, head: int, chain: seq<nat>, i: nat)
    requires Linked(mem, head, chain) && 0 < i < |chain| && Distinct(chain)
    ensures var prev := chain[i - 1];
      Linked(mem[prev := mem[prev].(next := mem[chain[i]].next)], head, chain[..i] + chain[i + 1..])
  {
    var prev, shorter := chain[i - 1], chain[..i] + chain[i + 1..];
    var changed := mem[prev := mem[prev].(next := mem[chain[i]].next)];
    forall k | 0 <= k < |shorter|
      ensures shorter[k] < |changed| && changed[shorter[k]].next == First(shorter, k + 1)
    {
      if k < i {
        assert shorter[k] == chain[k];
      } else {
        assert shorter[k] == chain[k + 1];
      }
    }
  }

  // -------------------------------------------------------------------- the chains

  ghost predicate Chain(mix: (nat, nat) -> nat, bits: nat, mem: seq<Aircraft>, head: int, chain: seq<nat>, b: nat) {
    && Linked(mem, head, chain)
    && (forall i :: 0 <= i < |chain| ==> Hashed(mix, mem[chain[i]].addr, bits) == b)
    && (forall i, j :: 0 <= i < j < |chain| ==> mem[chain[i]].addr != mem[chain[j]].addr)
  }

  ghost predicate Chains(mix: (nat, nat) -> nat, bits: nat, mem: seq<Aircraft>, heads: seq<int>,
                         chains: seq<seq<nat>>) {
    && |heads| == |chains| == Pow2(bits)
    && forall b :: 0 <= b < |chains| ==> Chain(mix, bits, mem, heads[b], chains[b], b)
  }

  lemma ChainDistinct(mix: (nat, nat) -> nat, bits: nat, mem: seq<Aircraft>, head: int, chain: seq<nat>, b: nat)
    requires Chain(mix, bits, mem, head, chain, b)
    ensures Distinct(chain)
  {
  }

  // Chains of different buckets have no slot in common.
  lemma ChainsDisjoint(mix: (nat, nat) -> nat, bits: nat, mem: seq<Aircraft>, heads: seq<int>, chains: seq<seq<nat>>,
                       x: nat, b: nat, c: nat)
    requires Chains(mix, bits, mem, heads, chains) && b < |chains| && c < |chains| && x in chains[b] && x in chains[c]
    ensures b == c
  {
    assert Chain(mix, bits, mem, heads[b], chains[b], b) && Chain(mix, bits, mem, heads[c], chains[c], c);
  }

  /** What an address names: the slot of its chain that has it. */
  ghost function Lookup(mem: seq<Aircraft>, chain: seq<nat>, addr: nat): (a: int)
    ensures a >= NULL
  {
    if chain == [] then NULL
    else if chain[0] < |mem| && mem[chain[0]].addr == addr then chain[0]
    else Lookup(mem, chain[1..], addr)
  }

  lemma {:induction false} LookupFinds(mem: seq<Aircraft>, chain: seq<nat>, addr: nat, k: nat)
    requires k < |chain| && chain[k] < |mem| && mem[chain[k]].addr == addr
    requires forall j :: 0 <= j < k ==> chain[j] >= |mem| || mem[chain[j]].addr != addr
    ensures Lookup(mem, chain, addr) == chain[k]
  {
    if k > 0 {
      LookupFinds(mem, chain[1..], addr, k - 1);
    }
  }

  lemma {:induction false} LookupMisses(mem: seq<Aircraft>, chain: seq<nat>, addr: nat)
    requires forall j :: 0 <= j < |chain| ==> chain[j] >= |mem| || mem[chain[j]].addr != addr
    ensures Lookup(mem, chain, addr) == NULL
  {
    if chain != [] {
      LookupMisses(mem, chain[1..], addr);
    }
  }

  // ------------------------------------------------------------------- the slots

  // The first slot of the newest block that was never handed out.
  function FirstFresh(mem: seq<Aircraft>, cap: nat, used: nat): int {
    if mem == [] then 0 else |mem| - cap + used
  }

  ghost predicate Live(chains: seq<seq<nat>>, x: nat) {
    exists b :: 0 <= b < |chains| && x in chains[b]
  }

  /** Every slot is live, or free, or fresh, and never two of these. */
  ghost predicate Partition(mem: seq<Aircraft>, cap: nat, used: nat, chains: seq<seq<nat>>, free: seq<nat>) {
    && 0 < cap && used <= cap && (mem == [] || cap <= |mem|) && (mem == [] ==> used == 0)
    && Distinct(free)
    && (forall x: nat :: x < |mem| ==> (Live(chains, x) <==> x < FirstFresh(mem, cap, used) && x !in free))
    && (forall x :: x in free ==> x < FirstFresh(mem, cap, used))
    && (forall b, x :: 0 <= b < |chains| && x in chains[b] ==> x < |mem|)
  }

  // ------------------------------------------------------------------ the quick cache

  ghost predicate Cached(mix: (nat, nat) -> nat, bits: nat, mem: seq<Aircraft>, chains: seq<seq<nat>>, quick: seq<Ap>,
                         quickBits: nat) {
    && |quick| == Pow2(quickBits) + QUICK_STRIDE && |chains| == Pow2(bits)
    && (forall i :: 0 <= i < |quick| && quick[i].addr != EMPTY ==>
        EntryRight(mix, bits, mem, chains, quick[i], quickBits, i))
    && (forall i, j :: 0 <= i < j < |quick| && quick[i].addr != EMPTY ==> quick[i].addr != quick[j].addr)
    && (forall i :: 0 <= i < |quick| && quick[i].addr == EMPTY ==> quick[i].ptr == NULL || quick[i].ptr == WILD)
  }

  // The pointer in the first empty one of some places.
  function FirstEmpty(quick: seq<Ap>, from: nat, n: nat): Option<int>
    decreases n
  {
    if n == 0 || from >= |quick| then None
    else if quick[from].addr == EMPTY then Some(quick[from].ptr)
    else FirstEmpty(quick, from + 1, n - 1)
  }

  lemma {:induction false} FirstEmptyIs(quick: seq<Ap>, from: nat, n: nat, i: nat)
    requires from <= i <= from + n && from + n <= |quick|
    requires forall k :: from <= k < i ==> quick[k].addr != EMPTY
    requires i < from + n ==> quick[i].addr == EMPTY
    decreases n
    ensures FirstEmpty(quick, from, n) == if i == from + n then None else Some(quick[i].ptr)
  {
    if from < i {
      FirstEmptyIs(quick, from + 1, n - 1, i);
    }
  }

  // A cached entry lies within the stride of its address and points to the aircraft there.
  ghost predicate EntryRight(mix: (nat, nat) -> nat, bits: nat, mem: seq<Aircraft>, chains: seq<seq<nat>>, q: Ap,
                             quickBits: nat, i: nat)
    requires |chains| == Pow2(bits)
  {
    && Hashed(mix, q.addr, quickBits) <= i < Hashed(mix, q.addr, quickBits) + QUICK_STRIDE
    && 0 <= q.ptr < |mem| && mem[q.ptr].addr == q.addr && q.ptr in chains[Hashed(mix, q.addr, bits)]
  }

  // Lists other than a changed one, and the lookup in them, stay as they are.
  lemma {:induction false} LookupFrame(mem: seq<Aircraft>, changed: seq<Aircraft>, chain: seq<nat>, addr: nat)
    requires |mem| <= |changed|
    requires forall i :: 0 <= i < |chain| ==> chain[i] < |mem| && changed[chain[i]].addr == mem[chain[i]].addr
    ensures Lookup(changed, chain, addr) == Lookup(mem, chain, addr)
  {
    if chain != [] {
      LookupFrame(mem, changed, chain[1..], addr);
    }
  }

  ghost predicate Held(mem: seq<Aircraft>, cap: nat, used: nat, chains: seq<seq<nat>>, free: seq<nat>, x: nat) {
    && 0 < cap && used <= cap && (mem == [] || cap <= |mem|) && (mem == [] ==> used == 0)
    && Distinct(free)
    && x < FirstFresh(mem, cap, used) && x < |mem| && x !in free && !Live(chains, x)
    && (forall y: nat :: y < |mem| && y != x ==> (Live(chains, y) <==> y < FirstFresh(mem, cap, used) && y !in free))
    && (forall y :: y in free ==> y < FirstFresh(mem, cap, used))
    && (forall b, y :: 0 <= b < |chains| && y in chains[b] ==> y < |mem|)
  }

  // Taking the first free slot.
  lemma TakeFree(mem: seq<Aircraft>, cap: nat, used: nat, chains: seq<seq<nat>>, free: seq<nat>)
    requires Partition(mem, cap, used, chains, free) && free != [] && free[0] < |mem|
    ensures Held(mem, cap, used, chains, free[1..], free[0])
  {
    var rest, x := free[1..], free[0];
    assert forall y :: y in free <==> y == x || y in rest;
    assert x !in rest;
  }

  // Taking the first fresh slot, in a block with room.
  lemma TakeFresh(mem: seq<Aircraft>, cap: nat, used: nat, chains: seq<seq<nat>>, free: seq<nat>)
    requires Partition(mem, cap, used, chains, free) && mem != [] && used < cap
    ensures Held(mem, cap, used + 1, chains, free, |mem| - cap + used)
  {
  }

  // Another block: all its slots are fresh.
  lemma NewBlock(mem: seq<Aircraft>, cap: nat, used: nat, chains: seq<seq<nat>>, free: seq<nat>, block: seq<Aircraft>)
    requires Partition(mem, cap, used, chains, free) && |block| == cap && (mem == [] || used == cap)
    ensures Partition(mem + block, cap, 0, chains, free)
  {
    forall x: nat | x < |mem + block|
      ensures Live(chains, x) <==> x < |mem| && x !in free
    {
    }
  }

  // A held slot joins a chain.
  lemma PutLive(mem: seq<Aircraft>, cap: nat, used: nat, chains: seq<seq<nat>>, free: seq<nat>, x: nat, b: nat)
    requires Held(mem, cap, used, chains, free, x) && b < |chains|
    ensures Partition(mem, cap, used, chains[b := [x] + chains[b]], free)
  {
    var longer := chains[b := [x] + chains[b]];
    forall y: nat | y < |mem|
      ensures Live(longer, y) <==> Live(chains, y) || y == x
    {
      if Live(chains, y) {
        var c :| 0 <= c < |chains| && y in chains[c];
        assert y in longer[c];
      }
      assert x in longer[b];
    }
  }

  lemma NotHeldElsewhere(mem: seq<Aircraft>, cap: nat, used: nat, chains: seq<seq<nat>>, free: seq<nat>, x: nat)
    requires Held(mem, cap, used, chains, free, x)
    ensures forall b :: 0 <= b < |chains| ==> x !in chains[b]
  {
  }

  lemma ChainFrame(mix: (nat, nat) -> nat, bits: nat, mem: seq<Aircraft>, changed: seq<Aircraft>, head: int,
                   chain: seq<nat>, b: nat)
    requires Chain(mix, bits, mem, head, chain, b) && |mem| <= |changed|
    requires forall i :: 0 <= i < |chain| ==> chain[i] < |mem| && changed[chain[i]] == mem[chain[i]]
    ensures Chain(mix, bits, changed, head, chain, b)
  {
    LinkedFrame(mem, changed, head, chain);
  }

  lemma ChainPush(mix: (nat, nat) -> nat, bits: nat, mem: seq<Aircraft>, head: int, chain: seq<nat>, b: nat, x: nat)
    requires Chain(mix, bits, mem, head, chain, b) && x < |mem| && mem[x].next == head
    requires Hashed(mix, mem[x].addr, bits) == b
    requires forall i :: 0 <= i < |chain| ==> mem[chain[i]].addr != mem[x].addr
    ensures Chain(mix, bits, mem, x, [x] + chain, b)
  {
    hide Linked;
    LinkedPush(mem, head, chain, x);
  }

  // A held slot, filled in and linked as the head of its chain.
  lemma CreateChains(mix: (nat, nat) -> nat, bits: nat, mem: seq<Aircraft>, heads: seq<int>, chains: seq<seq<nat>>,
                     x: nat, addr: nat)
    requires Chains(mix, bits, mem, heads, chains) && x < |mem|
    requires forall b :: 0 <= b < |chains| ==> x !in chains[b]
    requires Lookup(mem, chains[Hashed(mix, addr, bits)], addr) == NULL
    ensures var h := Hashed(mix, addr, bits);
      Chains(mix, bits, mem[x := Aircraft(addr, heads[h], false)], heads[h := x], chains[h := [x] + chains[h]])
  {
    hide Chain;
    var h := Hashed(mix, addr, bits);
    var changed := mem[x := Aircraft(addr, heads[h], false)];
    forall b | 0 <= b < |chains|
      ensures Chain(mix, bits, changed, heads[b], chains[b], b)
    {
      ChainInMemory(mix, bits, mem, heads[b], chains[b], b);
      ChainFrame(mix, bits, mem, changed, heads[b], chains[b], b);
    }
    ChainInMemory(mix, bits, mem, heads[h], chains[h], h);
    AbsentFromChain(mem, chains[h], addr);
    ChainPush(mix, bits, changed, heads[h], chains[h], h, x);
  }

  // A second aircraft with an address does not belong in its chain.
  lemma TwinsBreakChains(mix: (nat, nat) -> nat, bits: nat, mem: seq<Aircraft>, heads: seq<int>,
                         chains: seq<seq<nat>>, x: nat, aircraft: Aircraft, newHeads: seq<int>)
    requires Chains(mix, bits, mem, heads, chains) && x < |mem|
    requires forall b :: 0 <= b < |chains| ==> x !in chains[b]
    requires Lookup(mem, chains[Hashed(mix, aircraft.addr, bits)], aircraft.addr) != NULL
    ensures var h := Hashed(mix, aircraft.addr, bits);
      !Chains(mix, bits, mem[x := aircraft], newHeads, chains[h := [x] + chains[h]])
  {
    hide Lookup;
    var h := Hashed(mix, aircraft.addr, bits);
    var changed, longer := mem[x := aircraft], [x] + chains[h];
    LookupIn(mem, chains[h], aircraft.addr);
    var k :| 0 <= k < |chains[h]| && chains[h][k] == Lookup(mem, chains[h], aircraft.addr);
    assert longer[0] == x && longer[k + 1] == chains[h][k];
    assert changed[longer[0]].addr == changed[longer[k + 1]].addr;
    if h < |newHeads| {
      assert !Chain(mix, bits, changed, newHeads[h], longer, h);
      assert chains[h := longer][h] == longer;
    }
  }

  lemma HeldNotLive(mem: seq<Aircraft>, cap: nat, used: nat, chains: seq<seq<nat>>, free: seq<nat>, x: nat)
    requires Held(mem, cap, used, chains, free, x)
    ensures !Live(chains, x)
  {
  }

  lemma ChainInMemory(mix: (nat, nat) -> nat, bits: nat, mem: seq<Aircraft>, head: int, chain: seq<nat>, b: nat)
    requires Chain(mix, bits, mem, head, chain, b)
    ensures forall i :: 0 <= i < |chain| ==> chain[i] < |mem|
  {
  }

  lemma {:induction false} AbsentFromChain(mem: seq<Aircraft>, chain: seq<nat>, addr: nat)
    requires Lookup(mem, chain, addr) == NULL && forall i :: 0 <= i < |chain| ==> chain[i] < |mem|
    ensures forall i :: 0 <= i < |chain| ==> mem[chain[i]].addr != addr
  {
    if chain != [] {
      AbsentFromChain(mem, chain[1..], addr);
      assert forall i :: 1 <= i < |chain| ==> chain[i] == chain[1..][i - 1];
    }
  }

  // The cache keeps pointing to live aircraft when another one joins.
  lemma CreateCached(mix: (nat, nat) -> nat, bits: nat, mem: seq<Aircraft>, chains: seq<seq<nat>>, quick: seq<Ap>,
                     quickBits: nat,
                     x: nat, aircraft: Aircraft, h: nat)
    requires Cached(mix, bits, mem, chains, quick, quickBits) && x < |mem| && h < |chains|
    requires forall b :: 0 <= b < |chains| ==> x !in chains[b]
    ensures Cached(mix, bits, mem[x := aircraft], chains[h := [x] + chains[h]], quick, quickBits)
  {
  }

  lemma CreateFinds(mix: (nat, nat) -> nat, bits: nat, mem: seq<Aircraft>, heads: seq<int>, chains: seq<seq<nat>>,
                    x: nat, aircraft: Aircraft, h: nat, other: nat)
    requires Chains(mix, bits, mem, heads, chains) && x < |mem| && h == Hashed(mix, aircraft.addr, bits)
    requires forall b :: 0 <= b < |chains| ==> x !in chains[b]
    ensures var c, changed, longer := Hashed(mix, other, bits), mem[x := aircraft], chains[h := [x] + chains[h]];
      Lookup(changed, longer[c], other) == if other == aircraft.addr then x else Lookup(mem, chains[c], other)
  {
    hide Chain, Lookup;
    var c, changed := Hashed(mix, other, bits), mem[x := aircraft];
    var longer := [x] + chains[h];
    ChainInMemory(mix, bits, mem, heads[c], chains[c], c);
    LookupFrame(mem, changed, chains[c], other);
    if other == aircraft.addr {
      LookupFinds(changed, longer, other, 0);
    } else if c == h {
      LookupSkips(changed, longer, other);
      assert longer[1..] == chains[h];
    }
  }

  lemma LookupSkips(mem: seq<Aircraft>, chain: seq<nat>, addr: nat)
    requires chain != [] && chain[0] < |mem| && mem[chain[0]].addr != addr
    ensures Lookup(mem, chain, addr) == Lookup(mem, chain[1..], addr)
  {
  }

  lemma ChainsShape(mix: (nat, nat) -> nat, bits: nat, mem: seq<Aircraft>, heads: seq<int>, chains: seq<seq<nat>>)
    requires Chains(mix, bits, mem, heads, chains)
    ensures |heads| == |chains| == Pow2(bits)
  {
  }

  lemma HeldSlot(mem: seq<Aircraft>, cap: nat, used: nat, chains: seq<seq<nat>>, free: seq<nat>, x: nat)
    requires Held(mem, cap, used, chains, free, x)
    ensures x < |mem| && x !in free
  {
  }

  lemma FreeFrame(mem: seq<Aircraft>, head: int, free: seq<nat>, x: nat, aircraft: Aircraft)
    requires Linked(mem, head, free) && x < |mem| && x !in free
    ensures Linked(mem[x := aircraft], head, free)
  {
  }

  // The partition is about slots, not about what is in them.
  lemma SamePartition(mem: seq<Aircraft>, changed: seq<Aircraft>, cap: nat, used: nat, chains: seq<seq<nat>>,
                      free: seq<nat>)
    requires Partition(mem, cap, used, chains, free) && |mem| == |changed|
    ensures Partition(changed, cap, used, chains, free)
  {
  }

  lemma PartitionShape(mem: seq<Aircraft>, cap: nat, used: nat, chains: seq<seq<nat>>, free: seq<nat>)
    requires Partition(mem, cap, used, chains, free)
    ensures 0 < cap && used <= cap && (mem == [] || cap <= |mem|) && (mem == [] ==> used == 0)
  {
  }

  lemma MoreMemory(mix: (nat, nat) -> nat, bits: nat, mem: seq<Aircraft>, heads: seq<int>, chains: seq<seq<nat>>,
                   block: seq<Aircraft>, addr: nat)
    requires Chains(mix, bits, mem, heads, chains)
    ensures var c := Hashed(mix, addr, bits); Lookup(mem + block, chains[c], addr) == Lookup(mem, chains[c], addr)
  {
    hide Chain, Lookup;
    var c := Hashed(mix, addr, bits);
    ChainInMemory(mix, bits, mem, heads[c], chains[c], c);
    LookupFrame(mem, mem + block, chains[c], addr);
  }

  lemma MoreMemoryChains(mix: (nat, nat) -> nat, bits: nat, mem: seq<Aircraft>, heads: seq<int>, chains: seq<seq<nat>>,
                         quick: seq<Ap>, quickBits: nat, block: seq<Aircraft>)
    requires Chains(mix, bits, mem, heads, chains) && Cached(mix, bits, mem, chains, quick, quickBits)
    ensures Chains(mix, bits, mem + block, heads, chains) && Cached(mix, bits, mem + block, chains, quick, quickBits)
  {
    hide Chain;
    forall b | 0 <= b < |chains|
      ensures Chain(mix, bits, mem + block, heads[b], chains[b], b)
    {
      ChainInMemory(mix, bits, mem, heads[b], chains[b], b);
      ChainFrame(mix, bits, mem, mem + block, heads[b], chains[b], b);
    }
  }

  // An aircraft of its own chain is what its address finds.
  lemma ChainHasOne(mix: (nat, nat) -> nat, bits: nat, mem: seq<Aircraft>, heads: seq<int>, chains: seq<seq<nat>>,
                    addr: nat, x: nat)
    requires Chains(mix, bits, mem, heads, chains) && x < |mem| && mem[x].addr == addr
    requires x in chains[Hashed(mix, addr, bits)]
    ensures Lookup(mem, chains[Hashed(mix, addr, bits)], addr) == x
  {
    var b := Hashed(mix, addr, bits);
    var chain := chains[b];
    assert Chain(mix, bits, mem, heads[b], chain, b);
    var k :| 0 <= k < |chain| && chain[k] == x;
    LookupFinds(mem, chain, addr, k);
  }

  // ------------------------------------------------------------- taking a slot out

  ghost function Dropped(chain: seq<nat>, i: nat): seq<nat>
    requires i < |chain|
  {
    chain[..i] + chain[i + 1..]
  }

  // The memory after the element at i is unlinked.
  function Unlinked(mem: seq<Aircraft>, x: nat, prev: int): seq<Aircraft>
    requires x < |mem| && NULL <= prev < |mem|
  {
    if prev == NULL then mem else mem[prev := mem[prev].(next := mem[x].next)]
  }

  ghost function Before(chain: seq<nat>, i: nat): int
    requires i <= |chain|
  {
    if i == 0 then NULL else chain[i - 1]
  }

  lemma UnlinkedLinks(mem: seq<Aircraft>, head: int, chain: seq<nat>, i: nat)
    requires Linked(mem, head, chain) && i < |chain| && Distinct(chain)
    ensures chain[i] < |mem| && Before(chain, i) < |mem|
    ensures Linked(Unlinked(mem, chain[i], Before(chain, i)),
                   if i == 0 then mem[chain[i]].next else head, Dropped(chain, i))
  {
    if i == 0 {
      assert Dropped(chain, i) == chain[1..];
      LinkedPop(mem, head, chain);
    } else {
      LinkedWithout(mem, head, chain, i);
    }
  }

  // Which element of the longer chain one of the shorter chain is.
  function Source(i: nat, k: nat): nat {
    if k < i then k else k + 1
  }

  lemma UnlinkedChain(mix: (nat, nat) -> nat, bits: nat, mem: seq<Aircraft>, head: int, chain: seq<nat>, b: nat, i: nat)
    requires Chain(mix, bits, mem, head, chain, b) && i < |chain|
    ensures chain[i] < |mem| && Before(chain, i) < |mem|
    ensures Chain(mix, bits, Unlinked(mem, chain[i], Before(chain, i)),
                  if i == 0 then mem[chain[i]].next else head, Dropped(chain, i), b)
  {
    ChainDistinct(mix, bits, mem, head, chain, b);
    UnlinkedLinks(mem, head, chain, i);
    UnlinkedAddresses(mix, bits, mem, chain, b, i);
  }

  lemma UnlinkedAddresses(mix: (nat, nat) -> nat, bits: nat, mem: seq<Aircraft>, chain: seq<nat>, b: nat, i: nat)
    requires i < |chain| && forall k :: 0 <= k < |chain| ==> chain[k] < |mem|
    requires forall k :: 0 <= k < |chain| ==> Hashed(mix, mem[chain[k]].addr, bits) == b
    requires forall k, j :: 0 <= k < j < |chain| ==> mem[chain[k]].addr != mem[chain[j]].addr
    ensures var once, shorter := Unlinked(mem, chain[i], Before(chain, i)), Dropped(chain, i);
      && (forall k :: 0 <= k < |shorter| ==> shorter[k] < |once|)
      && (forall k :: 0 <= k < |shorter| ==> Hashed(mix, once[shorter[k]].addr, bits) == b)
      && (forall k, j :: 0 <= k < j < |shorter| ==> once[shorter[k]].addr != once[shorter[j]].addr)
  {
    hide Hashed;
    var once, shorter := Unlinked(mem, chain[i], Before(chain, i)), Dropped(chain, i);
    forall k | 0 <= k < |shorter|
      ensures shorter[k] == chain[Source(i, k)] && once[shorter[k]].addr == mem[chain[Source(i, k)]].addr
    {
    }
  }

  lemma DroppedMembers(chain: seq<nat>, i: nat)
    requires i < |chain| && Distinct(chain)
    ensures forall y :: y in Dropped(chain, i) <==> y in chain && y != chain[i]
  {
    var shorter := Dropped(chain, i);
    assert forall k :: 0 <= k < |shorter| ==> shorter[k] == chain[if k < i then k else k + 1];
    forall y | y in chain && y != chain[i]
      ensures y in shorter
    {
      var k :| 0 <= k < |chain| && chain[k] == y;
      assert shorter[if k < i then k else k - 1] == y;
    }
  }

  lemma ReapChains(mix: (nat, nat) -> nat, bits: nat, mem: seq<Aircraft>, heads: seq<int>, chains: seq<seq<nat>>,
                   b: nat, i: nat,
                   aircraft: Aircraft)
    requires Chains(mix, bits, mem, heads, chains) && b < |chains| && i < |chains[b]|
    ensures var x, prev := chains[b][i], Before(chains[b], i);
      && x < |mem| && prev < |mem|
      && Chains(mix, bits, Unlinked(mem, x, prev)[x := aircraft], if i == 0 then heads[b := mem[x].next] else heads,
           chains[b := Dropped(chains[b], i)])
  {
    hide Chain;
    var chain := chains[b];
    UnlinkedChain(mix, bits, mem, heads[b], chain, b, i);
    var x, prev := chain[i], Before(chain, i);
    ChainDistinct(mix, bits, mem, heads[b], chain, b);
    DroppedMembers(chain, i);
    var once := Unlinked(mem, x, prev);
    ChainInMemory(mix, bits, once, if i == 0 then mem[x].next else heads[b], Dropped(chain, i), b);
    ChainFrame(mix, bits, once, once[x := aircraft], if i == 0 then mem[x].next else heads[b], Dropped(chain, i), b);
    forall c | 0 <= c < |chains| && c != b
      ensures Chain(mix, bits, once[x := aircraft], heads[c], chains[c], c)
    {
      NotInOther(mix, bits, mem, heads, chains, x, b, c);
      if prev != NULL {
        NotInOther(mix, bits, mem, heads, chains, prev, b, c);
      }
      ChainInMemory(mix, bits, mem, heads[c], chains[c], c);
      ChainFrame(mix, bits, mem, once[x := aircraft], heads[c], chains[c], c);
    }
  }

  lemma NotInOther(mix: (nat, nat) -> nat, bits: nat, mem: seq<Aircraft>, heads: seq<int>, chains: seq<seq<nat>>,
                   x: nat, b: nat, c: nat)
    requires Chains(mix, bits, mem, heads, chains) && b < |chains| && c < |chains| && b != c && x in chains[b]
    ensures x !in chains[c]
  {
    if x in chains[c] {
      ChainsDisjoint(mix, bits, mem, heads, chains, x, b, c);
    }
  }

  lemma ReapPartition(mem: seq<Aircraft>, cap: nat, used: nat, chains: seq<seq<nat>>, free: seq<nat>, b: nat, i: nat)
    requires Partition(mem, cap, used, chains, free) && b < |chains| && i < |chains[b]| && Distinct(chains[b])
    requires forall c :: 0 <= c < |chains| && c != b ==> chains[b][i] !in chains[c]
    ensures chains[b][i] < |mem| && chains[b][i] !in free
    ensures Partition(mem, cap, used, chains[b := Dropped(chains[b], i)], [chains[b][i]] + free)
  {
    var x := chains[b][i];
    DroppedMembers(chains[b], i);
    var shorter, longer := chains[b := Dropped(chains[b], i)], [x] + free;
    assert Live(chains, x);
    forall y: nat | y < |mem|
      ensures Live(shorter, y) <==> Live(chains, y) && y != x
    {
      if Live(chains, y) && y != x {
        var c :| 0 <= c < |chains| && y in chains[c];
        assert y in shorter[c];
      }
    }
    assert forall y :: y in longer <==> y == x || y in free;
  }

  lemma UnlinkedCached(mix: (nat, nat) -> nat, bits: nat, mem: seq<Aircraft>, chains: seq<seq<nat>>, quick: seq<Ap>,
                       quickBits: nat,
                       x: nat, prev: int)
    requires Cached(mix, bits, mem, chains, quick, quickBits) && x < |mem| && NULL <= prev < |mem|
    ensures Cached(mix, bits, Unlinked(mem, x, prev), chains, quick, quickBits)
  {
  }

  predicate NotCached(quick: seq<Ap>, addr: nat) {
    forall k :: 0 <= k < |quick| && quick[k].addr != EMPTY ==> quick[k].addr != addr
  }

  lemma ReapCached(mix: (nat, nat) -> nat, bits: nat, mem: seq<Aircraft>, chains: seq<seq<nat>>, quick: seq<Ap>,
                   quickBits: nat,
                   b: nat, i: nat, aircraft: Aircraft)
    requires Cached(mix, bits, mem, chains, quick, quickBits) && b < |chains| && i < |chains[b]| && Distinct(chains[b])
    requires chains[b][i] < |mem| && NotCached(quick, mem[chains[b][i]].addr)
    ensures Cached(mix, bits, mem[chains[b][i] := aircraft], chains[b := Dropped(chains[b], i)], quick, quickBits)
  {
    DroppedMembers(chains[b], i);
  }

  lemma ReapFreeList(mem: seq<Aircraft>, freeHead: int, free: seq<nat>, x: nat, prev: int)
    requires Linked(mem, freeHead, free) && x < |mem| && NULL <= prev < |mem|
    requires x !in free && (prev == NULL || prev !in free)
    ensures Linked(Unlinked(mem, x, prev)[x := Aircraft(0, freeHead, false)], x, [x] + free)
  {
    var changed := Unlinked(mem, x, prev)[x := Aircraft(0, freeHead, false)];
    LinkedFrame(mem, changed, freeHead, free);
    LinkedPush(changed, freeHead, free, x);
  }

  // What is known of an aircraft in a chain, and of the one before it.
  lemma ReapFacts(mix: (nat, nat) -> nat, bits: nat, mem: seq<Aircraft>, heads: seq<int>, chains: seq<seq<nat>>,
                  cap: nat, used: nat, free: seq<nat>, b: nat, i: nat)
    requires Chains(mix, bits, mem, heads, chains) && b < |chains| && i < |chains[b]|
    requires Partition(mem, cap, used, chains, free)
    ensures var x, prev := chains[b][i], Before(chains[b], i);
      && x < |mem| && x !in free && NULL <= prev < |mem| && x != prev
      && (prev == NULL || prev !in free) && (prev == NULL <==> i == 0)
    ensures Distinct(chains[b]) && |heads| == |chains|
    ensures forall c :: 0 <= c < |chains| && c != b ==> chains[b][i] !in chains[c]
  {
    assert Chain(mix, bits, mem, heads[b], chains[b], b);
    assert Live(chains, chains[b][i]);
    if i > 0 {
      assert Live(chains, chains[b][i - 1]);
    }
    forall c | 0 <= c < |chains| && c != b
      ensures chains[b][i] !in chains[c]
    {
      NotInOther(mix, bits, mem, heads, chains, chains[b][i], b, c);
    }
  }

  // The aircraft of a chain that are not stale, by their address and activity.
  ghost function Kept(mem: seq<Aircraft>, chain: seq<nat>, stale: (nat, bool) -> bool): seq<nat> {
    if chain == [] then [] else
      var last := chain[|chain| - 1];
      Kept(mem, chain[..|chain| - 1], stale) +
        if last < |mem| && stale(mem[last].addr, mem[last].onActiveList) then [] else [last]
  }

  lemma KeptNone(mem: seq<Aircraft>, chain: seq<nat>, stale: (nat, bool) -> bool)
    ensures Kept(mem, chain[..0], stale) == []
  {
  }

  lemma KeptStep(mem: seq<Aircraft>, chain: seq<nat>, stale: (nat, bool) -> bool, j: nat)
    requires j < |chain| && chain[j] < |mem|
    ensures Kept(mem, chain[..j + 1], stale) ==
      Kept(mem, chain[..j], stale) + if stale(mem[chain[j]].addr, mem[chain[j]].onActiveList) then [] else [chain[j]]
  {
    assert chain[..j + 1][..j] == chain[..j];
  }

  lemma {:induction false} KeptMembers(mem: seq<Aircraft>, chain: seq<nat>, stale: (nat, bool) -> bool, y: nat)
    ensures y in Kept(mem, chain, stale) <==>
      y in chain && !(y < |mem| && stale(mem[y].addr, mem[y].onActiveList))
  {
    if chain != [] {
      var n := |chain| - 1;
      KeptMembers(mem, chain[..n], stale, y);
      assert chain == chain[..n] + [chain[n]];
    }
  }

  lemma {:induction false} LookupIn(mem: seq<Aircraft>, chain: seq<nat>, addr: nat)
    ensures var a := Lookup(mem, chain, addr); a != NULL ==> a in chain && a < |mem| && mem[a].addr == addr
  {
    if chain != [] {
      LookupIn(mem, chain[1..], addr);
    }
  }

  // What an address finds when the stale aircraft of a bucket are gone.
  ghost function Remaining(mem: seq<Aircraft>, a: int, inBucket: bool, stale: (nat, bool) -> bool): int {
    if 0 <= a < |mem| && inBucket && stale(mem[a].addr, mem[a].onActiveList) then NULL else a
  }

  lemma FoundAfter(mix: (nat, nat) -> nat, bits: nat, was: seq<Aircraft>, wasHeads: seq<int>, wasChains: seq<seq<nat>>,
                   mem: seq<Aircraft>, heads: seq<int>, chains: seq<seq<nat>>, b: nat, stale: (nat, bool) -> bool,
                       addr: nat)
    requires Chains(mix, bits, was, wasHeads, wasChains) && Chains(mix, bits, mem, heads, chains)
    requires b < |wasChains| && |mem| == |was| && chains == wasChains[b := Kept(was, wasChains[b], stale)]
    requires forall y: nat :: y < |mem| && Live(chains, y) ==> SameButNext(mem[y], was[y])
    ensures var h := Hashed(mix, addr, bits);
      Lookup(mem, chains[h], addr) == Remaining(was, Lookup(was, wasChains[h], addr), h == b, stale)
  {
    hide Chains, Chain, Kept, Lookup, Hashed, Live;
    var h := Hashed(mix, addr, bits);
    ChainsShape(mix, bits, was, wasHeads, wasChains);
    var chain, now := wasChains[h], chains[h];
    InMemory(mix, bits, was, wasHeads, wasChains, h);
    InMemory(mix, bits, mem, heads, chains, h);
    forall y | y in now
      ensures y < |mem| && SameButNext(mem[y], was[y]) && y in chain
      ensures !(h == b && stale(was[y].addr, was[y].onActiveList))
    {
      assert Live(chains, y) by { InChainIsLive(chains, h, y); }
      KeptMembers(was, wasChains[b], stale, y);
    }
    var a := Lookup(was, chain, addr);
    LookupIn(was, chain, addr);
    if a == NULL {
      AbsentFromChain(was, chain, addr);
      LookupMisses(mem, now, addr);
    } else if h == b && stale(was[a].addr, was[a].onActiveList) {
      forall y | y in now
        ensures mem[y].addr != addr
      {
        if was[y].addr == addr {
          ChainHasOne(mix, bits, was, wasHeads, wasChains, addr, y);
        }
      }
      LookupMisses(mem, now, addr);
    } else {
      KeptMembers(was, wasChains[b], stale, a);
      assert a in now;
      ChainHasOne(mix, bits, mem, heads, chains, addr, a);
    }
  }

  lemma InChainIsLive(chains: seq<seq<nat>>, b: nat, y: nat)
    requires b < |chains| && y in chains[b]
    ensures Live(chains, y)
  {
  }

  lemma InMemory(mix: (nat, nat) -> nat, bits: nat, mem: seq<Aircraft>, heads: seq<int>, chains: seq<seq<nat>>, b: nat)
    requires Chains(mix, bits, mem, heads, chains) && b < |chains|
    ensures forall i :: 0 <= i < |chains[b]| ==> chains[b][i] < |mem|
  {
    ChainInMemory(mix, bits, mem, heads[b], chains[b], b);
  }

  lemma BucketHead(mix: (nat, nat) -> nat, bits: nat, mem: seq<Aircraft>, heads: seq<int>, chains: seq<seq<nat>>,
                   b: nat)
    requires Chains(mix, bits, mem, heads, chains) && b < |chains|
    ensures heads[b] == First(chains[b], 0)
  {
    assert Chain(mix, bits, mem, heads[b], chains[b], b);
  }

  // The pointer behind position i of a chain.
  lemma BucketNext(mix: (nat, nat) -> nat, bits: nat, mem: seq<Aircraft>, heads: seq<int>, chains: seq<seq<nat>>,
                   b: nat, i: nat)
    requires Chains(mix, bits, mem, heads, chains) && b < |chains| && i <= |chains[b]|
    ensures b < |heads|
    ensures var prev := Before(chains[b], i);
      NULL <= prev < |mem| && (if prev == NULL then heads[b] else mem[prev].next) == First(chains[b], i)
  {
    assert Chain(mix, bits, mem, heads[b], chains[b], b);
  }

  lemma StepFacts(mix: (nat, nat) -> nat, bits: nat, mem: seq<Aircraft>, heads: seq<int>, chains: seq<seq<nat>>,
                  b: nat, i: nat)
    requires Chains(mix, bits, mem, heads, chains) && b < |chains| && First(chains[b], i) != NULL
    ensures i < |chains[b]| && chains[b][i] < |mem|
  {
    assert Chain(mix, bits, mem, heads[b], chains[b], b);
  }

  lemma FreeNotLive(mem: seq<Aircraft>, cap: nat, used: nat, chains: seq<seq<nat>>, free: seq<nat>, x: nat)
    requires Partition(mem, cap, used, chains, free) && x in free
    ensures !Live(chains, x)
  {
  }

  // What is live after an element is taken out was live before, and is not that element.
  lemma StillLive(chains: seq<seq<nat>>, b: nat, i: nat)
    requires b < |chains| && i < |chains[b]|
    ensures forall y :: Live(chains[b := Dropped(chains[b], i)], y) ==> Live(chains, y)
  {
    var shorter := Dropped(chains[b], i);
    forall y | Live(chains[b := shorter], y)
      ensures Live(chains, y)
    {
      var c :| 0 <= c < |chains| && y in chains[b := shorter][c];
      if c == b {
        var k :| 0 <= k < |shorter| && shorter[k] == y;
        assert chains[b][Source(i, k)] == y;
      }
    }
  }

  // A slot with the same address and link: lists and chains do not change.
  lemma SameLinks(mem: seq<Aircraft>, head: int, chain: seq<nat>, x: nat, aircraft: Aircraft)
    requires Linked(mem, head, chain) && x < |mem| && aircraft.next == mem[x].next
    ensures Linked(mem[x := aircraft], head, chain)
  {
  }

  lemma SameLinksChains(mix: (nat, nat) -> nat, bits: nat, mem: seq<Aircraft>, heads: seq<int>,
                        chains: seq<seq<nat>>, x: nat, aircraft: Aircraft)
    requires Chains(mix, bits, mem, heads, chains) && x < |mem|
    requires aircraft.next == mem[x].next && aircraft.addr == mem[x].addr
    ensures Chains(mix, bits, mem[x := aircraft], heads, chains)
  {
    hide Linked;
    forall b | 0 <= b < |chains|
      ensures Chain(mix, bits, mem[x := aircraft], heads[b], chains[b], b)
    {
      assert Chain(mix, bits, mem, heads[b], chains[b], b);
      SameLinks(mem, heads[b], chains[b], x, aircraft);
      LinkedInMemory(mem, heads[b], chains[b]);
    }
  }

  lemma LinkedInMemory(mem: seq<Aircraft>, head: int, chain: seq<nat>)
    requires Linked(mem, head, chain)
    ensures forall i :: 0 <= i < |chain| ==> chain[i] < |mem|
  {
  }

  lemma SameLinksCached(mix: (nat, nat) -> nat, bits: nat, mem: seq<Aircraft>, chains: seq<seq<nat>>,
                        quick: seq<Ap>, quickBits: nat, x: nat, aircraft: Aircraft)
    requires Cached(mix, bits, mem, chains, quick, quickBits) && x < |mem| && aircraft.addr == mem[x].addr
    ensures Cached(mix, bits, mem[x := aircraft], chains, quick, quickBits)
  {
  }

  class Table {
    const mix: (nat, nat) -> nat
    const acHashBits: nat
    const aircraftBackCap: nat

    var mem: seq<Aircraft>
    var used: nat
    var freeHead: int
    var heads: seq<int>
    var quick: seq<Ap>
    var quickBits: nat
    ghost var chains: seq<seq<nat>>
    ghost var free: seq<nat>

    ghost predicate Valid()
      reads this
    {
      && Chains(mix, acHashBits, mem, heads, chains)
      && Linked(mem, freeHead, free)
      && Partition(mem, aircraftBackCap, used, chains, free)
      && Cached(mix, acHashBits, mem, chains, quick, quickBits)
    }

    // The plain lookup: the address in its hash chain.
    ghost function Find(addr: nat): int
      reads this
      requires |chains| == Pow2(acHashBits)
    {
      Lookup(mem, chains[Hashed(mix, addr, acHashBits)], addr)
    }

    constructor (mix: (nat, nat) -> nat, acHashBits: nat, aircraftBackCap: nat)
      requires aircraftBackCap > 0
      ensures Valid() && forall b :: 0 <= b < |chains| ==> chains[b] == []
      ensures this.mix == mix && forall i :: 0 <= i < |quick| ==> quick[i] == Ap(EMPTY, WILD)
    {
      this.mix, this.acHashBits, this.aircraftBackCap := mix, acHashBits, aircraftBackCap;
      mem, used, freeHead, free := [], 0, NULL, [];
      heads := seq(Pow2(acHashBits), _ => NULL);
      chains := seq(Pow2(acHashBits), _ => []);
      quickBits := QUICK_MIN_BITS;
      quick := seq(Pow2(QUICK_MIN_BITS) + QUICK_STRIDE, _ => Ap(EMPTY, WILD));
    }

    // quickResize: an empty cache of another size, all of its bytes 0xFF.
    method QuickResize(bits: nat)
      requires Valid()
      modifies `quick, `quickBits
      ensures Valid() && quickBits == bits && forall i :: 0 <= i < |quick| ==> quick[i] == Ap(EMPTY, WILD)
    {
      quickBits := bits;
      quick := seq(Pow2(bits) + QUICK_STRIDE, _ => Ap(EMPTY, WILD));
    }

    // The places where an address may be cached.
    predicate InStride(addr: nat, i: int)
      reads `quickBits
    {
      Hashed(mix, addr, quickBits) <= i < Hashed(mix, addr, quickBits) + QUICK_STRIDE
    }

    // quickGet: the stride of the address.
    method QuickGet(addr: nat) returns (at: int)
      requires |quick| == Pow2(quickBits) + QUICK_STRIDE
      ensures at == NULL || (InStride(addr, at) && quick[at].addr == addr)
      ensures forall i :: Hashed(mix, addr, quickBits) <= i < at ==> quick[i].addr != addr
      ensures at == NULL ==>
          forall i :: InStride(addr, i) ==> quick[i].addr != addr
    {
      var hash := Hashed(mix, addr, quickBits);
      for i := 0 to QUICK_STRIDE
        invariant forall k :: hash <= k < hash + i ==> quick[k].addr != addr
      {
        if quick[hash + i].addr == addr {
          return hash + i;
        }
      }
      return NULL;
    }

    // A cached aircraft that is no longer on the active list.
    predicate Inactive(q: Ap)
      reads `mem
    {
      q.addr != EMPTY && 0 <= q.ptr < |mem| && !mem[q.ptr].onActiveList
    }

    lemma EntriesRight()
      requires Cached(mix, acHashBits, mem, chains, quick, quickBits)
      ensures forall k :: 0 <= k < |quick| && quick[k].addr != EMPTY ==> 0 <= quick[k].ptr < |mem|
    {
    }

    /** Whether an aircraft is active decides only what quickMaintenance drops. */
    method SetActive(x: nat, active: bool)
      requires Valid() && x < |mem| && Live(chains, x)
      modifies `mem
      ensures Valid() && mem == old(mem)[x := old(mem)[x].(onActiveList := active)]
      ensures forall addr :: Find(addr) == old(Find(addr))
      ensures forall k :: 0 <= k < |quick| && quick[k].addr != EMPTY ==>
          Inactive(quick[k]) == if quick[k].ptr == x then !active else old(Inactive(quick[k]))
    {
      hide Chains, Linked, Cached, Partition, Lookup;
      ghost var aircraft := mem[x].(onActiveList := active);
      ChainsShape(mix, acHashBits, mem, heads, chains);
      SameLinksChains(mix, acHashBits, mem, heads, chains, x, aircraft);
      SameLinksCached(mix, acHashBits, mem, chains, quick, quickBits, x, aircraft);
      SameLinks(mem, freeHead, free, x, aircraft);
      SamePartition(mem, mem[x := aircraft], aircraftBackCap, used, chains, free);
      forall addr
        ensures Lookup(mem[x := aircraft], chains[Hashed(mix, addr, acHashBits)], addr) == Find(addr)
      {
        InMemory(mix, acHashBits, mem, heads, chains, Hashed(mix, addr, acHashBits));
        LookupFrame(mem, mem[x := aircraft], chains[Hashed(mix, addr, acHashBits)], addr);
      }
      EntriesRight();
      mem := mem[x := mem[x].(onActiveList := active)];
    }

    // quickMaintenance: entries of aircraft that are not active are dropped.
    method QuickMaintenance()
      requires Valid()
      modifies `quick
      ensures Valid() && |quick| == |old(quick)|
      ensures forall i :: 0 <= i < |quick| ==>
                quick[i] == if Inactive(old(quick[i])) then Ap(EMPTY, NULL) else old(quick[i])
    {
      var i := 0;
      while i < |quick|
        invariant 0 <= i <= |quick| == |old(quick)| && Cached(mix, acHashBits, mem, chains, quick, quickBits)
        invariant forall k :: 0 <= k < i ==>
            quick[k] == if Inactive(old(quick[k])) then Ap(EMPTY, NULL) else old(quick[k])
        invariant forall k :: i <= k < |quick| ==> quick[k] == old(quick[k])
      {
        var q := quick[i];
        if q.addr != EMPTY {
          if !mem[q.ptr].onActiveList {
            quick := quick[i := Ap(EMPTY, NULL)];
          }
        }
        i := i + 1;
      }
    }

    // quickRemove, by the address of the aircraft.
    method QuickRemove(addr: nat)
      requires Cached(mix, acHashBits, mem, chains, quick, quickBits)
      modifies `quick
      ensures Cached(mix, acHashBits, mem, chains, quick, quickBits) && |quick| == |old(quick)|
      ensures forall i :: 0 <= i < |quick| && (addr != EMPTY || old(quick[i]).addr != EMPTY) ==>
                quick[i] == if old(quick[i]).addr == addr then Ap(EMPTY, NULL) else old(quick[i])
      ensures forall i :: 0 <= i < |quick| && old(quick[i]).addr == EMPTY ==>
                quick[i] == old(quick[i]) || quick[i] == Ap(EMPTY, NULL)
      ensures NotCached(quick, addr)
    {
      var at := QuickGet(addr);
      if at != NULL {
        quick := quick[at := Ap(EMPTY, NULL)];
      }
    }

    // activeUpdate of track.c lets an aircraft go, and drops it from the cache.
    method Deactivate(x: nat)
      requires Valid() && Live(chains, x) && x < |mem|
      modifies `mem, `quick
      ensures Valid() && mem == old(mem)[x := old(mem)[x].(onActiveList := false)]
      ensures forall addr :: Find(addr) == old(Find(addr))
      ensures NotCached(quick, mem[x].addr) && |quick| == |old(quick)|
      ensures forall i :: 0 <= i < |quick| && old(quick[i]).addr != EMPTY && old(quick[i]).addr != mem[x].addr ==>
                quick[i] == old(quick[i])
    {
      SetActive(x, false);
      QuickRemove(mem[x].addr);
    }

    // A cached entry with the address of an aircraft points to that aircraft.
    lemma CachedIs(at: nat, x: nat)
      requires Valid() && at < |quick| && x < |mem| && quick[at].addr == mem[x].addr != EMPTY
      requires x in chains[Hashed(mix, mem[x].addr, acHashBits)]
      ensures quick[at].ptr == x
    {
      ChainHasOne(mix, acHashBits, mem, heads, chains, mem[x].addr, x);
      ChainHasOne(mix, acHashBits, mem, heads, chains, mem[x].addr, quick[at].ptr);
    }

    // quickAdd: into the first empty place of the stride.
    method QuickAdd(x: nat) returns (ghost place: int)
      requires Valid() && x < |mem| && x in chains[Hashed(mix, mem[x].addr, acHashBits)]
      modifies `quick
      ensures Valid() && |quick| == |old(quick)|
      ensures place != NULL ==> 0 <= place < |quick| && quick == old(quick)[place := Ap(mem[x].addr, x)]
      ensures place != NULL ==> InStride(mem[x].addr, place)
      ensures place == NULL ==> quick == old(quick) && (mem[x].addr == EMPTY || StrideFull(mem[x].addr))
      ensures mem[x].addr == EMPTY ==> place == NULL
    {
      hide Chains, Linked, Partition;
      var at := QuickGet(mem[x].addr);
      if at != NULL {
        if mem[x].addr == EMPTY {
          return NULL;
        }
        CachedIs(at, x);
        return at;
      }
      var hash := Hashed(mix, mem[x].addr, quickBits);
      for i := 0 to QUICK_STRIDE
        invariant forall k :: hash <= k < hash + i ==> quick[k].addr != EMPTY
      {
        if quick[hash + i].addr == EMPTY {
          quick := quick[hash + i := Ap(mem[x].addr, x)];
          return hash + i;
        }
      }
      return NULL;
    }

    // Every place that an address may be cached in is taken.
    ghost predicate StrideFull(addr: nat)
      reads `quick, `quickBits
    {
      var hash := Hashed(mix, addr, quickBits);
      forall k :: hash <= k < hash + QUICK_STRIDE && k < |quick| ==> quick[k].addr != EMPTY
    }

    // Larger when more than five eighths are needed, smaller below two eighths.
    function WantedBits(bits: nat, buckets: nat, active: nat): nat {
      if bits > QUICK_MIN_BITS && active < buckets * 2 / 8 then bits - 1
      else if bits < QUICK_MIN_BITS then QUICK_MIN_BITS
      else if bits < QUICK_MAX_BITS && active > buckets * 5 / 8 then bits + 1
      else bits
    }

    /** The size stays while between a quarter and five eighths of the buckets are needed, and
        otherwise moves towards that by one bit; what has grown is not shrunk again by as many
        aircraft, nor the other way round. */
    lemma SizeSettles(bits: nat, active: nat)
      requires 8 <= bits <= 16
      ensures var next := WantedBits(bits, Pow2(bits), active);
        && 8 <= next <= 16 && bits - 1 <= next <= bits + 1
        && (next > bits <==> bits < 16 && 8 * active > 5 * Pow2(bits))
        && (next < bits <==> bits > 8 && 4 * active < Pow2(bits))
        && (next > bits ==> WantedBits(next, Pow2(next), active) >= next)
        && (next < bits ==> WantedBits(next, Pow2(next), active) <= next)
    {
      SixteenTimes(bits);
      SixteenTimes(bits + 1);
      SixteenTimes(bits - 1);
      var y := Pow2(bits - 4);
      assert Pow2(bits) == 16 * y && Pow2(bits + 1) == 32 * y && Pow2(bits - 1) == 8 * y;
      hide *;
      SettlesFor(bits, y, active);
    }

    lemma SixteenTimes(bits: nat)
      requires bits >= 4
      ensures Pow2(bits) == 16 * Pow2(bits - 4) && (bits > 4 ==> Pow2(bits - 4) == 2 * Pow2(bits - 5))
    {
      assert Pow2(bits - 2) == 4 * Pow2(bits - 4);
    }

    lemma SettlesFor(bits: nat, y: nat, active: nat)
      requires 8 <= bits <= 16
      ensures var next := WantedBits(bits, 16 * y, active);
        && 8 <= next <= 16 && bits - 1 <= next <= bits + 1
        && (next > bits <==> bits < 16 && 8 * active > 5 * (16 * y))
        && (next < bits <==> bits > 8 && 4 * active < 16 * y)
        && (next > bits ==> WantedBits(next, 32 * y, active) >= next)
        && (next < bits ==> WantedBits(next, 8 * y, active) <= next)
    {
    }

    // quickInit: the cache follows the number of active aircraft.
    method QuickInit(active: nat, maintenanceDue: bool)
      requires Valid()
      modifies `quick, `quickBits
      ensures Valid() && quickBits == WantedBits(old(quickBits), |old(quick)|, active)
      ensures quickBits != old(quickBits) ==> forall i :: 0 <= i < |quick| ==> quick[i] == Ap(EMPTY, WILD)
      ensures quickBits == old(quickBits) ==> |quick| == |old(quick)|
      ensures quickBits == old(quickBits) ==> forall i :: 0 <= i < |quick| ==>
        quick[i] == if maintenanceDue && Inactive(old(quick[i])) then Ap(EMPTY, NULL) else old(quick[i])
    {
      var quickBuckets := |quick|;
      if quickBits > QUICK_MIN_BITS && active < quickBuckets * 2 / 8 {
        QuickResize(quickBits - 1);
      } else if quickBits < QUICK_MIN_BITS {
        QuickResize(QUICK_MIN_BITS);
      } else if quickBits < QUICK_MAX_BITS && active > quickBuckets * 5 / 8 {
        QuickResize(quickBits + 1);
      }
      if maintenanceDue {
        QuickMaintenance();
      }
    }

    // The walk along the hash chain.
    method ChainGet(addr: nat) returns (a: int)
      requires Chains(mix, acHashBits, mem, heads, chains)
      ensures a == Find(addr)
      ensures a != NULL ==> 0 <= a < |mem| && mem[a].addr == addr && a in chains[Hashed(mix, addr, acHashBits)]
    {
      hide Lookup;
      var b := Hashed(mix, addr, acHashBits);
      ghost var chain := chains[b];
      assert Chain(mix, acHashBits, mem, heads[b], chain, b);
      a := heads[b];
      ghost var k := 0;
      while a != NULL && mem[a].addr != addr
        invariant 0 <= k <= |chain| && a == First(chain, k)
        invariant forall j :: 0 <= j < k ==> mem[chain[j]].addr != addr
        decreases |chain| - k
      {
        a := mem[a].next;
        k := k + 1;
      }
      if a != NULL {
        LookupFinds(mem, chain, addr, k);
      } else {
        LookupMisses(mem, chain, addr);
      }
    }

    // The cache leads from an address to its aircraft.
    ghost predicate Remembered(addr: nat, a: int)
      reads `quick, `quickBits
    {
      exists i :: 0 <= i < |quick| && InStride(addr, i) && quick[i] == Ap(addr, a)
    }

    // What aircraftGet takes for a cached aircraft with the address of empty places.
    ghost function Mistaken(addr: nat): Option<int>
      reads `quick, `quickBits
    {
      if addr == EMPTY then FirstEmpty(quick, Hashed(mix, addr, quickBits), QUICK_STRIDE) else None
    }

    /** aircraftGet finds through the cache what the plain lookup finds, but for the address
        of empty places: of that it finds whatever pointer the first of them has. */
    method AircraftGet(addr: nat) returns (a: int)
      requires Valid()
      modifies `quick
      ensures Valid()
      ensures a == match old(Mistaken(addr)) case None => Find(addr) case Some(p) => p
      ensures old(Mistaken(addr)).Some? ==> quick == old(quick) && (a == NULL || a == WILD)
      ensures a >= 0 && addr != EMPTY ==> Remembered(addr, a) || StrideFull(addr)
    {
      hide Chains, Lookup, Linked, Partition;
      ChainsShape(mix, acHashBits, mem, heads, chains);
      var at := QuickGet(addr);
      if at != NULL {
        a := quick[at].ptr;
        if addr == EMPTY {
          FirstEmptyIs(quick, Hashed(mix, addr, quickBits), QUICK_STRIDE, at);
        } else {
          ChainHasOne(mix, acHashBits, mem, heads, chains, addr, a);
        }
        return;
      }
      if addr == EMPTY {
        FirstEmptyIs(quick, Hashed(mix, addr, quickBits), QUICK_STRIDE, Hashed(mix, addr, quickBits) + QUICK_STRIDE);
      }
      a := ChainGet(addr);
      if a != NULL {
        ghost var place := QuickAdd(a);
      }
    }

    // Memory has no slot that could be handed out.
    ghost predicate NoSlot()
      reads `free, `mem, `used
    {
      free == [] && (mem == [] || used >= aircraftBackCap)
    }

    // allocAircraft: a slot that is neither live nor free nor fresh any more.
    method AllocAircraft() returns (x: nat)
      requires Valid() && aircraftBackCap > 0
      modifies `mem, `used, `freeHead, `free
      ensures Held(mem, aircraftBackCap, used, chains, free, x) && Linked(mem, freeHead, free)
      ensures Chains(mix, acHashBits, mem, heads, chains) && Cached(mix, acHashBits, mem, chains, quick, quickBits)
      ensures forall addr :: Find(addr) == old(Find(addr))
      ensures x == if old(free) != [] then old(free[0]) else |mem| - aircraftBackCap + used - 1
      ensures free == if old(free) != [] then old(free)[1..] else []
      ensures |mem| == |old(mem)| + if old(NoSlot()) then aircraftBackCap else 0
    {
      hide Chains, Cached, Partition, Held, Lookup;
      ChainsShape(mix, acHashBits, mem, heads, chains);
      PartitionShape(mem, aircraftBackCap, used, chains, free);
      if freeHead != NULL {
        TakeFree(mem, aircraftBackCap, used, chains, free);
        LinkedPop(mem, freeHead, free);
        x := freeHead;
        freeHead := mem[freeHead].next;
        free := free[1..];
        return;
      }
      if mem == [] || used >= aircraftBackCap {
        AddBlock();
      }
      TakeFresh(mem, aircraftBackCap, used, chains, free);
      x := |mem| - aircraftBackCap + used;
      used := used + 1;
    }

    // Another block of memory.
    method AddBlock()
      requires Valid() && aircraftBackCap > 0 && (mem == [] || used >= aircraftBackCap)
      modifies `mem, `used
      ensures Valid() && used == 0 && old(mem) <= mem && |mem| == |old(mem)| + aircraftBackCap
      ensures forall addr :: Find(addr) == old(Find(addr))
    {
      hide Chains, Cached, Partition, Lookup;
      ChainsShape(mix, acHashBits, mem, heads, chains);
      PartitionShape(mem, aircraftBackCap, used, chains, free);
      var block := seq(aircraftBackCap, _ => Aircraft(0, NULL, false));
      NewBlock(mem, aircraftBackCap, used, chains, free, block);
      forall addr
        ensures Lookup(mem + block, chains[Hashed(mix, addr, acHashBits)], addr) == Find(addr)
      {
        MoreMemory(mix, acHashBits, mem, heads, chains, block, addr);
      }
      MoreMemoryChains(mix, acHashBits, mem, heads, chains, quick, quickBits, block);
      LinkedFrame(mem, mem + block, freeHead, free);
      mem := mem + block;
      used := 0;
    }

    // Aircraft with the address of empty places are not found behind a cleared place.
    ghost predicate Doubles(addr: nat)
      reads this
      requires |chains| == Pow2(acHashBits)
    {
      Mistaken(addr) == Some(NULL) && Find(addr) != NULL
    }

    /** aircraftCreate gives a new address a slot that no other aircraft has, and changes
        what no other address finds. The address of empty places may get a wild pointer
        instead, or a second aircraft. */
    method AircraftCreate(addr: nat) returns (a: int)
      requires Valid()
      modifies this
      ensures |chains| == Pow2(acHashBits) && (Valid() <==> !old(Doubles(addr)))
      ensures old(Mistaken(addr)) == Some(WILD) ==> a == WILD && mem == old(mem) && chains == old(chains)
      ensures old(Mistaken(addr)) == None && old(Find(addr)) != NULL ==> a == old(Find(addr)) && chains == old(chains)
      ensures old(Mistaken(addr)) != Some(WILD) ==> a >= 0 && Find(addr) == a
      ensures old(Mistaken(addr)) == Some(NULL) || (old(Mistaken(addr)) == None && old(Find(addr)) == NULL) ==>
                !Live(old(chains), a) && Live(chains, a) && (old(free) != [] ==> a == old(free[0])) &&
                |mem| == |old(mem)| + if old(NoSlot()) then aircraftBackCap else 0
      ensures forall other :: other != addr ==> Find(other) == old(Find(other))
    {
      hide Chains, Linked, Cached, Held, Partition, Lookup, Live;
      ChainsShape(mix, acHashBits, mem, heads, chains);
      PartitionShape(mem, aircraftBackCap, used, chains, free);
      var existing := AircraftGet(addr);
      if existing != NULL {
        return existing;
      }
      a := AllocAircraft();
      HeldNotLive(mem, aircraftBackCap, used, chains, free, a);
      Linkup(a, addr);
    }

    // The end of aircraftCreate.
    method Linkup(a: nat, addr: nat)
      requires Chains(mix, acHashBits, mem, heads, chains) && Linked(mem, freeHead, free)
      requires Held(mem, aircraftBackCap, used, chains, free, a)
      requires Cached(mix, acHashBits, mem, chains, quick, quickBits)
      modifies `mem, `heads, `chains
      ensures |mem| == |old(mem)|
      ensures |chains| == Pow2(acHashBits) && (Valid() <==> old(Find(addr)) == NULL)
      ensures Find(addr) == a && Live(chains, a)
      ensures forall other :: other != addr ==> Find(other) == old(Find(other))
    {
      hide Chains, Linked, Cached, Held, Partition, Lookup;
      var hash := Hashed(mix, addr, acHashBits);
      ChainsShape(mix, acHashBits, mem, heads, chains);
      ghost var aircraft, longer := Aircraft(addr, heads[hash], false), [a] + chains[hash];
      HeldSlot(mem, aircraftBackCap, used, chains, free, a);
      NotHeldElsewhere(mem, aircraftBackCap, used, chains, free, a);
      if Find(addr) == NULL {
        CreateChains(mix, acHashBits, mem, heads, chains, a, addr);
      } else {
        TwinsBreakChains(mix, acHashBits, mem, heads, chains, a, aircraft, heads[hash := a]);
      }
      CreateCached(mix, acHashBits, mem, chains, quick, quickBits, a, aircraft, hash);
      PutLive(mem, aircraftBackCap, used, chains, free, a, hash);
      forall other
        ensures Lookup(mem[a := aircraft], chains[hash := longer][Hashed(mix, other, acHashBits)], other) ==
          if other == addr then a else Find(other)
      {
        CreateFinds(mix, acHashBits, mem, heads, chains, a, aircraft, hash, other);
      }
      FreeFrame(mem, freeHead, free, a, aircraft);
      SamePartition(mem, mem[a := aircraft], aircraftBackCap, used, chains[hash := longer], free);
      mem := mem[a := Aircraft(addr, heads[hash], false)];
      heads := heads[hash := a];
      chains := chains[hash := longer];
      InChainIsLive(chains, hash, a);
    }

    // freeAircraft: out of the cache, cleared, and onto the free list. The slot is already
    // unlinked from its chain.
    method FreeAircraft(x: nat)
      requires Cached(mix, acHashBits, mem, chains, quick, quickBits) && x < |mem|
      modifies `quick, `mem, `freeHead
      ensures Cached(mix, acHashBits, old(mem), chains, quick, quickBits)
      ensures NotCached(quick, old(mem[x].addr))
      ensures mem == old(mem)[x := Aircraft(0, old(freeHead), false)] && freeHead == x
    {
      QuickRemove(mem[x].addr);
      mem := mem[x := Aircraft(0, NULL, false)];
      mem := mem[x := mem[x].(next := freeHead)];
      freeHead := x;
    }

    // The removal in removeStale of track.c: unlinked, then freed.
    method Reap(b: nat, prev: int, x: nat, ghost i: nat)
      requires Valid() && b < |chains| && i < |chains[b]| && x == chains[b][i] && prev == Before(chains[b], i)
      modifies this
      ensures Valid() && chains == old(chains)[b := Dropped(old(chains[b]), i)]
      ensures |mem| == |old(mem)| && forall y :: 0 <= y < |mem| && y != x ==> SameButNext(mem[y], old(mem[y]))
      ensures !Live(chains, x) && forall y :: Live(chains, y) ==> Live(old(chains), y)
    {
      hide Chains, Linked, Cached, Partition, Lookup, Chain, Distinct;
      ghost var cleared := Aircraft(0, freeHead, false);
      ReapFacts(mix, acHashBits, mem, heads, chains, aircraftBackCap, used, free, b, i);
      ReapChains(mix, acHashBits, mem, heads, chains, b, i, cleared);
      ReapPartition(mem, aircraftBackCap, used, chains, free, b, i);
      UnlinkedCached(mix, acHashBits, mem, chains, quick, quickBits, x, prev);
      ReapFreeList(mem, freeHead, free, x, prev);
      if prev == NULL {
        heads := heads[b := mem[x].next];
      } else {
        mem := mem[prev := mem[prev].(next := mem[x].next)];
      }
      ghost var unlinked := mem;
      FreeAircraft(x);
      ReapCached(mix, acHashBits, unlinked, chains, quick, quickBits, b, i, cleared);
      SamePartition(old(mem), mem, aircraftBackCap, used, chains[b := Dropped(chains[b], i)], [x] + free);
      StillLive(chains, b, i);
      chains := chains[b := Dropped(chains[b], i)];
      free := [x] + free;
      FreeNotLive(mem, aircraftBackCap, used, chains, free, x);
    }

    /** One bucket of removeStale: exactly the stale aircraft of its chain are freed, the
        others keep their order, their slots and their addresses, and no other lookup changes. */
    method RemoveStale(b: nat, stale: (nat, bool) -> bool)
      requires Valid() && b < |chains|
      modifies this
      ensures Valid()
      ensures chains == old(chains)[b := Kept(old(mem), old(chains[b]), stale)]
      ensures |mem| == |old(mem)| && forall y: nat :: y < |mem| && Live(chains, y) ==> SameButNext(mem[y], old(mem[y]))
      ensures forall addr ::
          Find(addr) == Remaining(old(mem), old(Find(addr)), Hashed(mix, addr, acHashBits) == b, stale)
    {
      WalkBucket(b, stale);
      forall addr
        ensures Find(addr) == Remaining(old(mem), old(Find(addr)), Hashed(mix, addr, acHashBits) == b, stale)
      {
        FoundAfter(mix, acHashBits, old(mem), old(heads), old(chains), mem, heads, chains, b, stale, addr);
      }
    }

    // The loop over the chain.
    method WalkBucket(b: nat, stale: (nat, bool) -> bool)
      requires Valid() && b < |chains|
      modifies this
      ensures Valid()
      ensures chains == old(chains)[b := Kept(old(mem), old(chains[b]), stale)]
      ensures |mem| == |old(mem)| && forall y: nat :: y < |mem| && Live(chains, y) ==> SameButNext(mem[y], old(mem[y]))
    {
      hide Chains, Linked, Cached, Partition, Lookup, Chain, Distinct, Kept, Before, Last, Dropped;
      ghost var was, orig := mem, chains[b];
      ChainsShape(mix, acHashBits, mem, heads, chains);
      var prev := NULL;
      var a := heads[b];
      ghost var j, kept: seq<nat> := 0, [];
      BucketHead(mix, acHashBits, mem, heads, chains, b);
      KeptNone(was, orig, stale);
      LastAppended([], 0);
      assert kept + orig[0..] == orig && chains[b := orig] == chains;
      while a != NULL
        invariant Valid() && |chains| == |old(chains)| && |mem| == |was|
        invariant 0 <= j <= |orig| && kept == Kept(was, orig[..j], stale)
        invariant chains == old(chains)[b := kept + orig[j..]]
        invariant prev == Last(kept) && a == First(orig, j)
        invariant forall y: nat :: y < |mem| && Live(chains, y) ==> SameButNext(mem[y], was[y])
        decreases |orig| - j
      {
        Middle(kept, orig, j);
        StepFacts(mix, acHashBits, mem, heads, chains, b, |kept|);
        KeptStep(was, orig, stale, j);
        assert Live(chains, a);
        if stale(mem[a].addr, mem[a].onActiveList) {
          Reap(b, prev, a, |kept|);
        } else {
          prev := a;
          LastAppended(kept, orig[j]);
          kept := kept + [orig[j]];
        }
        j := j + 1;
        Middle(kept, orig, j);
        BucketNext(mix, acHashBits, mem, heads, chains, b, |kept|);
        a := if prev == NULL then heads[b] else mem[prev].next;
      }
      assert orig[..j] == orig && kept + orig[j..] == kept;
    }
  }

  ghost function Last(s: seq<nat>): int {
    if s == [] then NULL else s[|s| - 1]
  }

  lemma LastAppended(s: seq<nat>, x: nat)
    ensures Last(s + [x]) == x && Last([]) == NULL
  {
  }

  // Where the walk stands: behind the kept part, at element j of the original chain.
  lemma Middle(kept: seq<nat>, orig: seq<nat>, j: nat)
    requires j <= |orig|
    ensures Before(kept + orig[j..], |kept|) == Last(kept)
    ensures First(kept + orig[j..], |kept|) == First(orig, j)
    ensures j < |orig| ==> (kept + orig[j..])[|kept|] == orig[j]
    ensures j < |orig| ==> Dropped(kept + orig[j..], |kept|) == kept + orig[j + 1..]
    ensures j < |orig| ==> kept + [orig[j]] + orig[j + 1..] == kept + orig[j..]
  {
  }

  predicate SameButNext(a: Aircraft, b: Aircraft) {
    a.addr == b.addr && a.onActiveList == b.onActiveList
  }

  /** Right after the start the lookup of the address of empty places gives a wild pointer. */
  method WildLookup(mix: (nat, nat) -> nat, acHashBits: nat, cap: nat) returns (a: int)
    requires cap > 0
    ensures a == WILD
  {
    var table := new Table(mix, acHashBits, cap);
    FirstEmptyIs(table.quick, Hashed(mix, EMPTY, table.quickBits), QUICK_STRIDE,
        Hashed(mix, EMPTY, table.quickBits));
    a := table.AircraftGet(EMPTY);
  }
}
