/** The pruning of native_modes_decoder.cpp, which bounds the map of aircraft states. */
module AircraftStates {

  const AIRCRAFT_STATE_TTL_MS: int := 600000
  const AIRCRAFT_PRUNE_INTERVAL_MS: int := 30000
  const MAX_AIRCRAFT_STATES: nat := 4096

  // What pruning knows of the state of an aircraft. A state is told apart by what it holds and when it was last seen.
  datatype StoredState = StoredState(lastSeenMs: int, fields: seq<bv8>)

  class DecoderState {
    var aircraft: map<nat, StoredState>
    var lastAircraftPruneMs: int

    // More states than the limit, or half a minute since the last pruning.
    predicate Due(timestampMs: int)
      reads this
    {
      |aircraft| > 4096 || timestampMs - lastAircraftPruneMs >= 30000
    }

    /** prune_aircraft_states keeps states as they are or drops them: all that timed out go,
        and of the others only as many as are over the limit, never one that was seen after
        one that stays. */
    method PruneAircraftStates(timestampMs: int)
      modifies this
      ensures !old(Due(timestampMs)) ==> unchanged(this)
      ensures old(Due(timestampMs)) ==> lastAircraftPruneMs == timestampMs && |aircraft| <= 4096
      ensures old(Due(timestampMs)) ==> MostRecent(Fresh(old(aircraft), timestampMs), aircraft)
      ensures old(Due(timestampMs)) && |Fresh(old(aircraft), timestampMs)| <= 4096 ==>
          aircraft == Fresh(old(aircraft), timestampMs)
      ensures old(Due(timestampMs)) && |Fresh(old(aircraft), timestampMs)| > 4096 ==>
          |aircraft| == 4096
    {
      if |aircraft| <= MAX_AIRCRAFT_STATES && timestampMs - lastAircraftPruneMs < AIRCRAFT_PRUNE_INTERVAL_MS {
        return;
      }
      lastAircraftPruneMs := timestampMs;
      EraseTimedOut(timestampMs);
      ghost var fresh_ := aircraft;
      while |aircraft| > MAX_AIRCRAFT_STATES
        invariant MostRecent(fresh_, aircraft)
        invariant aircraft == fresh_ || |aircraft| >= MAX_AIRCRAFT_STATES
        invariant |fresh_| <= MAX_AIRCRAFT_STATES ==> aircraft == fresh_
        invariant lastAircraftPruneMs == timestampMs
        decreases |aircraft|
      {
        var oldest := Oldest();
        OneLess(aircraft, oldest);
        aircraft := aircraft - {oldest};
      }
    }

    // The loop that erases what timed out, in whatever order the map gives its entries.
    method EraseTimedOut(timestampMs: int)
      modifies `aircraft
      ensures aircraft == Fresh(old(aircraft), timestampMs)
    {
      var todo := aircraft.Keys;
      while todo != {}
        invariant todo <= aircraft.Keys <= old(aircraft).Keys
        invariant forall k :: k in aircraft ==> aircraft[k] == old(aircraft)[k]
        invariant forall k :: k in old(aircraft) && k !in todo ==>
                    (k in aircraft <==> timestampMs - old(aircraft)[k].lastSeenMs <= AIRCRAFT_STATE_TTL_MS)
        decreases |todo|
      {
        var k :| k in todo;
        todo := todo - {k};
        if timestampMs - aircraft[k].lastSeenMs > AIRCRAFT_STATE_TTL_MS {
          aircraft := aircraft - {k};
        }
      }
    }

    // The search for the state that was seen longest ago.
    method Oldest() returns (oldest: nat)
      requires |aircraft| > 0
      ensures oldest in aircraft
      ensures forall k :: k in aircraft ==> aircraft[oldest].lastSeenMs <= aircraft[k].lastSeenMs
    {
      var todo := aircraft.Keys;
      oldest :| oldest in todo;
      todo := todo - {oldest};
      while todo != {}
        invariant todo <= aircraft.Keys && oldest in aircraft
        invariant forall k :: k in aircraft && k !in todo ==> aircraft[oldest].lastSeenMs <= aircraft[k].lastSeenMs
        decreases |todo|
      {
        var k :| k in todo;
        todo := todo - {k};
        if aircraft[k].lastSeenMs < aircraft[oldest].lastSeenMs {
          oldest := k;
        }
      }
    }
  }

  // The states seen within the last ten minutes.
  function Fresh(aircraft: map<nat, StoredState>, timestampMs: int): map<nat, StoredState> {
    map k | k in aircraft && timestampMs - aircraft[k].lastSeenMs <= 600_000 :: aircraft[k]
  }

  // Part of a map, with nothing left out that was seen after something that is in it.
  ghost predicate MostRecent(all: map<nat, StoredState>, part: map<nat, StoredState>) {
    && part.Keys <= all.Keys && (forall k :: k in part ==> part[k] == all[k])
    && (forall k, gone :: k in part && gone in all && gone !in part ==> all[gone].lastSeenMs <= all[k].lastSeenMs)
  }

  lemma OneLess(aircraft: map<nat, StoredState>, k: nat)
    requires k in aircraft
    ensures |aircraft - {k}| == |aircraft| - 1
  {
    assert (aircraft - {k}).Keys == aircraft.Keys - {k};
    assert |aircraft.Keys - {k}| == |aircraft.Keys| - 1;
  }
}
