/** The ring of recently announced addresses that readsb_bridge_adapter.c puts in place
    of readsb's hash filter. */
module AddressRing {

  const RING_SIZE: nat := 4096
  const HEX_UNKNOWN: bv32 := 0xdeadbeef

  // Addresses that are never stored or found.
  predicate Reserved(addr: bv32) {
    addr == 0 || addr == HEX_UNKNOWN
  }

  // The new contents, oldest first, after an address is announced.
  function Announce(order: seq<bv32>, addr: bv32): seq<bv32>
    requires |order| > 0
  {
    if Reserved(addr) || addr in order then order else order[1..] + [addr]
  }

  function AnnounceAll(order: seq<bv32>, addrs: seq<bv32>): seq<bv32>
    requires |order| > 0
    ensures |AnnounceAll(order, addrs)| == |order|
    decreases |addrs|
  {
    if addrs == [] then order else AnnounceAll(Announce(order, addrs[0]), addrs[1..])
  }

  function Known(order: seq<bv32>): set<bv32> {
    set a | a in order && !Reserved(a)
  }

  // The slots of the ring that are in use never hold the same address twice.
  ghost predicate NoRepeats(order: seq<bv32>) {
    forall i, j :: 0 <= i < j < |order| && order[i] != 0 ==> order[i] != order[j]
  }

  lemma AnnounceKeepsDistinct(order: seq<bv32>, addr: bv32)
    requires |order| > 0 && NoRepeats(order)
    ensures NoRepeats(Announce(order, addr))
  {
  }

  lemma AnnounceAdds(order: seq<bv32>, addr: bv32)
    requires |order| > 0
    ensures Known(Announce(order, addr)) <= Known(order) + {addr}
    ensures !Reserved(addr) ==> addr in Known(Announce(order, addr))
  {
    assert !Reserved(addr) && addr !in order ==> (order[1..] + [addr])[|order| - 1] == addr;
  }

  /** An address stays known until as many new addresses as there are slots have
      been announced after it. */
  lemma {:induction false} AnnouncedSurvives(order: seq<bv32>, addrs: seq<bv32>, k: nat)
    requires k < |order| && !Reserved(order[k]) && |addrs| <= k
    ensures order[k] in Known(AnnounceAll(order, addrs))
    decreases |addrs|
  {
    if addrs != [] {
      var next := Announce(order, addrs[0]);
      if next == order {
        AnnouncedSurvives(order, addrs[1..], k);
      } else {
        assert next[k - 1] == order[k];
        AnnouncedSurvives(next, addrs[1..], k - 1);
      }
    }
  }

  lemma NewestSurvives(order: seq<bv32>, addr: bv32, addrs: seq<bv32>)
    requires |order| == RING_SIZE && !Reserved(addr) && addr !in order && |addrs| < RING_SIZE
    ensures addr in Known(AnnounceAll(Announce(order, addr), addrs))
  {
    assert Announce(order, addr)[RING_SIZE - 1] == addr;
    AnnouncedSurvives(Announce(order, addr), addrs, RING_SIZE - 1);
  }

  class Ring {
    const seen: array<bv32>
    var next: nat

    ghost predicate Valid()
      reads this, seen
    {
      seen.Length == RING_SIZE && next < RING_SIZE && NoRepeats(Order())
    }

    // The slots from the oldest to the newest.
    ghost function Order(): seq<bv32>
      requires seen.Length == RING_SIZE && next < RING_SIZE
      reads this, seen
    {
      seen[next..] + seen[..next]
    }

    ghost function KnownAddresses(): set<bv32>
      requires Valid()
      reads this, seen
    {
      Known(Order())
    }

    /** icaoFilterInit */
    constructor ()
      ensures Valid() && fresh(seen) && KnownAddresses() == {}
    {
      seen := new bv32[RING_SIZE](_ => 0);
      next := 0;
      new;
    }

    lemma InOrder(addr: bv32)
      requires Valid()
      ensures addr in Order() <==> exists i :: 0 <= i < RING_SIZE && seen[i] == addr
    {
      if i :| 0 <= i < RING_SIZE && seen[i] == addr {
        assert Order()[if i >= next then i - next else i + RING_SIZE - next] == addr;
      }
    }

    /** icaoFilterAdd */
    method IcaoFilterAdd(addr: bv32)
      requires Valid()
      modifies this`next, seen
      ensures Valid() && Order() == Announce(old(Order()), addr)
    {
      InOrder(addr);
      if Reserved(addr) {
        return;
      }
      for i := 0 to RING_SIZE
        invariant forall k :: 0 <= k < i ==> seen[k] != addr
      {
        if seen[i] == addr {
          return;
        }
      }
      ghost var order := Order();
      seen[next] := addr;
      next := (next + 1) % RING_SIZE;
      assert Order() == order[1..] + [addr];
      AnnounceKeepsDistinct(order, addr);
    }

    /** icaoFilterTest */
    method IcaoFilterTest(addr: bv32) returns (known: bool)
      requires Valid()
      ensures known <==> addr in KnownAddresses()
    {
      InOrder(addr);
      if Reserved(addr) {
        return false;
      }
      for i := 0 to RING_SIZE
        invariant forall k :: 0 <= k < i ==> seen[k] != addr
      {
        if seen[i] == addr {
          return true;
        }
      }
      return false;
    }
  }
}
