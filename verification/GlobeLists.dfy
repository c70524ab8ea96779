/** The lists of globe_index.c that hold the aircraft of each index, and set_globe_index,
    which moves an aircraft from list to list. The locks are those of CraftArrayLock. */
module GlobeLists {
  import opened Basics
  import opened GlobeSquares

  // An aircraft is named by its pointer; NULL is none.
  datatype Slot = NULL | Craft(id: nat)

  class CraftArray {
    var list: array<Slot>
    var len: nat

    ghost predicate Valid()
      reads this, list
    {
      len <= list.Length && Distinct(list[..len]) && NULL !in list[..len]
    }

    constructor ()
      ensures Valid() && len == 0 && fresh(list)
    {
      list := new Slot[0];
      len := 0;
    }

    ghost predicate Has(id: nat)
      reads this, list
    {
      len <= list.Length && Craft(id) in list[..len]
    }

    /** ca_add: the aircraft is in the list afterwards, once, and everyone else stays. */
    method Add(id: nat)
      requires Valid()
      modifies this, list
      ensures Valid() && (list == old(list) || fresh(list))
      ensures list[..len] == old(list[..len]) + if old(Has(id)) then [] else [Craft(id)]
      ensures forall other :: Has(other) <==> other == id || old(Has(other))
    {
      ghost var was := list[..len];
      if len == list.Length {
        Grow();
      }
      var duplicate := Contains(id);
      if !duplicate {
        list[len] := Craft(id);
        len := len + 1;
        assert list[..len] == was + [Craft(id)];
      }
    }

    // The reallocation of ca_add.
    method Grow()
      requires len == list.Length
      modifies `list
      ensures fresh(list) && len < list.Length && list[..len] == old(list[..len])
    {
      var larger := new Slot[list.Length * 2 + 16](_ => NULL);
      CopySlots(list, larger, len);
      list := larger;
    }

    // The search of ca_add for a double add.
    method Contains(id: nat) returns (duplicate: bool)
      requires len <= list.Length
      ensures duplicate <==> Craft(id) in list[..len]
    {
      duplicate := false;
      for i := 0 to len
        invariant duplicate <==> Craft(id) in list[..i]
      {
        if list[i] == Craft(id) {
          duplicate := true;
        }
      }
    }

    /** ca_remove: the aircraft is gone, and everyone else stays, once each. */
    method Remove(id: nat) returns (found: nat)
      requires Valid()
      modifies this, list
      ensures Valid() && list == old(list)
      ensures !Has(id)
      ensures forall other :: other != id ==> (Has(other) <==> old(Has(other)))
      ensures found == if old(Has(id)) then 1 else 0
    {
      found := 0;
      var i := 0;
      while i < len
        invariant i <= len <= old(len) && list == old(list) && Valid()
        invariant Craft(id) !in list[..i]
        invariant forall other :: other != id ==> (Has(other) <==> old(Has(other)))
        invariant found == 0 ==> len == old(len) && list[..len] == old(list[..len])
        invariant found > 0 ==> found == 1 && !Has(id) && old(Has(id))
        decreases len - i
      {
        if list[i] == Craft(id) {
          ghost var was := list[..len];
          list[i] := list[len - 1];
          list[len - 1] := NULL;
          len := len - 1;
          found := found + 1;
          Swapped(was, i, list[..len]);
        } else {
          i := i + 1;
        }
      }
    }
  }

  // Replacing an element by the last one takes out that element and no other.
  lemma Swapped(was: seq<Slot>, i: nat, now: seq<Slot>)
    requires i < |was| && Distinct(was) && |now| == |was| - 1
    requires forall k :: 0 <= k < |now| ==> now[k] == if k == i then was[|was| - 1] else was[k]
    ensures Distinct(now) && was[i] !in now
    ensures forall x :: x != was[i] ==> (x in now <==> x in was)
  {
    forall x | x != was[i] && x in was
      ensures x in now
    {
      var k :| 0 <= k < |was| && was[k] == x;
      assert now[if k == |was| - 1 then i else k] == x;
    }
  }

  method CopySlots(source: array<Slot>, target: array<Slot>, n: nat)
    requires source != target && n <= source.Length && n <= target.Length
    modifies target
    ensures target[..n] == source[..n]
  {
    for i := 0 to n
      invariant target[..i] == source[..i]
    {
      target[i] := source[i];
    }
  }

  // -------------------------------------------------------------------- the index

  class GlobeIndex {
    // One list for each index from 0 to GLOBE_MAX_INDEX.
    const lists: seq<CraftArray>
    // globe_index of the aircraft that have one.
    var index: map<nat, int>

    ghost predicate Shape()
      reads this, lists, set k | 0 <= k < |lists| :: lists[k].list
    {
      && (forall j, k :: 0 <= j < k < |lists| ==> lists[j] != lists[k] && lists[j].list != lists[k].list)
      && (forall k :: 0 <= k < |lists| ==> lists[k].Valid())
    }

    /** Every aircraft is in the list of its own index and in no other. */
    ghost predicate Filed()
      reads this, lists, set k | 0 <= k < |lists| :: lists[k].list
    {
      forall k, id :: 0 <= k < |lists| ==> (lists[k].Has(id) <==> id in index && index[id] == k)
    }

    // No aircraft has an index beyond the last list.
    predicate InRange()
      reads this
    {
      forall id :: id in index ==> index[id] <= GLOBE_MAX_INDEX
    }

    ghost predicate Valid()
      reads this, lists, set k | 0 <= k < |lists| :: lists[k].list
    {
      |lists| == GLOBE_MAX_INDEX + 1 && Shape() && Filed() && InRange()
    }

    constructor ()
      ensures Valid() && index == map[]
      ensures forall k :: 0 <= k < |lists| ==> fresh(lists[k]) && fresh(lists[k].list)
    {
      var empty: seq<CraftArray> := [];
      while |empty| <= GLOBE_MAX_INDEX
        invariant |empty| <= GLOBE_MAX_INDEX + 1
        invariant forall k :: 0 <= k < |empty| ==>
            fresh(empty[k]) && fresh(empty[k].list) && empty[k].Valid() && empty[k].len == 0
        invariant forall j, k :: 0 <= j < k < |empty| ==> empty[j] != empty[k] && empty[j].list != empty[k].list
      {
        var list := new CraftArray();
        empty := empty + [list];
      }
      lists, index := empty, map[];
    }

    function IndexOf(id: nat): int
      reads this
    {
      if id in index then index[id] else -5
    }

    // The arrays of the lists are the same, or new ones.
    twostate predicate OnlyGrown()
      reads this, lists, set k | 0 <= k < |lists| :: lists[k].list
    {
      forall k :: 0 <= k < |lists| ==> lists[k].list == old(lists[k].list) || fresh(lists[k].list)
    }

    // The two list operations of set_globe_index.
    method Refile(id: nat, oldIndex: int, newIndex: int)
      requires Shape() && |lists| == GLOBE_MAX_INDEX + 1
      requires oldIndex != newIndex && oldIndex <= GLOBE_MAX_INDEX && newIndex <= GLOBE_MAX_INDEX
      requires forall k :: 0 <= k < |lists| ==> (lists[k].Has(id) <==> k == oldIndex)
      modifies lists, set k | 0 <= k < |lists| :: lists[k].list
      ensures Shape()
      ensures forall k :: 0 <= k < |lists| ==> (lists[k].Has(id) <==> k == newIndex)
      ensures forall k, other :: 0 <= k < |lists| && other != id ==> (lists[k].Has(other) <==> old(lists[k].Has(other)))
      ensures OnlyGrown()
    {
      hide CraftArray.Has, CraftArray.Valid;
      if oldIndex >= 0 {
        var found := lists[oldIndex].Remove(id);
      }
      if newIndex >= 0 {
        lists[newIndex].Add(id);
      }
    }

    /** set_globe_index files the aircraft under its new index, exactly when neither index is
        beyond the last list (or no list is concerned): beyond it the code gives up halfway. */
    method SetGlobeIndex(id: nat, newIndex: int)
      requires Shape() && Filed() && |lists| == GLOBE_MAX_INDEX + 1
      modifies this, lists, set k | 0 <= k < |lists| :: lists[k].list
      ensures Shape() && index == old(index)[id := newIndex]
      ensures Filed() <==> Refilable(old(IndexOf(id)), newIndex)
      ensures OnlyGrown()
    {
      hide CraftArray.Has, CraftArray.Valid;
      var oldIndex := IndexOf(id);
      index := index[id := newIndex];
      if oldIndex == newIndex {
        return;
      }
      if newIndex > GLOBE_MAX_INDEX || oldIndex > GLOBE_MAX_INDEX {
        assert forall k :: 0 <= k < |lists| ==> (lists[k].Has(id) <==> k == oldIndex);
        if 0 <= oldIndex <= GLOBE_MAX_INDEX {
          assert lists[oldIndex].Has(id) && index[id] != oldIndex;
          assert !Filed();
        } else if 0 <= newIndex <= GLOBE_MAX_INDEX {
          assert !lists[newIndex].Has(id) && index[id] == newIndex;
          assert !Filed();
        } else {
          forall k, other | 0 <= k < |lists|
            ensures lists[k].Has(other) <==> other in index && index[other] == k
          {
            assert lists[k].Has(other) == old(lists[k].Has(other));
          }
        }
        return;
      }
      Refile(id, oldIndex, newIndex);
    }

    // setPosition and updatePosition: the index of the position.
    method PlaceAircraft(id: nat, lat: real, lon: real, tiles: seq<Tile>)
      requires Valid() && TileList(tiles)
      modifies this, lists, set k | 0 <= k < |lists| :: lists[k].list
      ensures Valid() && OnlyGrown() && index.Keys == old(index.Keys) + {id}
    {
      hide CraftArray.Has, CraftArray.Valid;
      var res := GlobeIndexOf(lat, lon, tiles);
      SetGlobeIndex(id, res);
    }

    // freeAircraft and the timeouts of track.c, and the start of load_aircraft.
    method ForgetAircraft(id: nat)
      requires Valid()
      modifies this, lists, set k | 0 <= k < |lists| :: lists[k].list
      ensures Valid() && OnlyGrown() && IndexOf(id) == -5
    {
      hide CraftArray.Has, CraftArray.Valid;
      SetGlobeIndex(id, -5);
    }

    // load_aircraft: the index that was saved, unless it is too large or there is no position.
    method LoadAircraft(id: nat, saved: int, positioned: bool)
      requires Valid()
      modifies this, lists, set k | 0 <= k < |lists| :: lists[k].list
      ensures Valid() && OnlyGrown()
      ensures IndexOf(id) == if positioned && saved <= GLOBE_MAX_INDEX then saved else -5
    {
      hide CraftArray.Has, CraftArray.Valid;
      ForgetAircraft(id);
      var newIndex := if saved > GLOBE_MAX_INDEX then -5 else saved;
      if positioned {
        SetGlobeIndex(id, newIndex);
      }
    }

    /** Over any run of what the program does with indexes, every aircraft is in exactly the
        list of its index: set_globe_index is never given an index without a list. */
    method Run(events: seq<Event>, tiles: seq<Tile>)
      requires Valid() && TileList(tiles)
      modifies this, lists, set k | 0 <= k < |lists| :: lists[k].list
      ensures Valid()
    {
      hide CraftArray.Has, CraftArray.Valid;
      for i := 0 to |events|
        invariant Valid() && OnlyGrown()
      {
        match events[i]
        case Positioned(id, lat, lon) => PlaceAircraft(id, lat, lon, tiles);
        case Forgotten(id) => ForgetAircraft(id);
        case Loaded(id, saved, positioned) => LoadAircraft(id, saved, positioned);
      }
    }
  }

  datatype Event = Positioned(id: nat, lat: real, lon: real) | Forgotten(id: nat) |
      Loaded(id: nat, saved: int, positioned: bool)

  // Both indexes have lists or none, or nothing changes.
  predicate Refilable(oldIndex: int, newIndex: int) {
    || (oldIndex <= GLOBE_MAX_INDEX && newIndex <= GLOBE_MAX_INDEX)
    || oldIndex == newIndex
    || !(0 <= oldIndex <= GLOBE_MAX_INDEX || 0 <= newIndex <= GLOBE_MAX_INDEX)
  }
}
