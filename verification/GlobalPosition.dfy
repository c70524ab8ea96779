/** The position decoding of native_modes_decoder.cpp, which repeats the airborne decoder
    of cpr.c with its own table and its own way of bringing longitudes into range. */
module GlobalPosition {
  import opened LongitudeZones
  import opened Cpr

  // cpr_nl: the bridge's own table, from the equator up.
  function BridgeNL(lat: real): (nl: int)
    ensures 1 <= nl <= 59
  {
    var a := Abs(lat);
    if a < 10.47047130 then 59
    else if a < 14.82817437 then 58
    else if a < 18.18626357 then 57
    else if a < 21.02939493 then 56
    else if a < 23.54504487 then 55
    else if a < 25.82924707 then 54
    else if a < 27.93898710 then 53
    else if a < 29.91135686 then 52
    else if a < 31.77209708 then 51
    else if a < 33.53993436 then 50
    else if a < 35.22899598 then 49
    else if a < 36.85025108 then 48
    else if a < 38.41241892 then 47
    else if a < 39.92256684 then 46
    else if a < 41.38651832 then 45
    else if a < 42.80914012 then 44
    else if a < 44.19454951 then 43
    else if a < 45.54626723 then 42
    else if a < 46.86733252 then 41
    else if a < 48.16039128 then 40
    else if a < 49.42776439 then 39
    else if a < 50.67150166 then 38
    else if a < 51.89342469 then 37
    else if a < 53.09516153 then 36
    else if a < 54.27817472 then 35
    else if a < 55.44378444 then 34
    else if a < 56.59318756 then 33
    else if a < 57.72747354 then 32
    else if a < 58.84763776 then 31
    else if a < 59.95459277 then 30
    else if a < 61.04917774 then 29
    else if a < 62.13216659 then 28
    else if a < 63.20427479 then 27
    else if a < 64.26616523 then 26
    else if a < 65.31845310 then 25
    else if a < 66.36171008 then 24
    else if a < 67.39646774 then 23
    else if a < 68.42322022 then 22
    else if a < 69.44242631 then 21
    else if a < 70.45451075 then 20
    else if a < 71.45986473 then 19
    else if a < 72.45884545 then 18
    else if a < 73.45177442 then 17
    else if a < 74.43893416 then 16
    else if a < 75.42056257 then 15
    else if a < 76.39684391 then 14
    else if a < 77.36789461 then 13
    else if a < 78.33374083 then 12
    else if a < 79.29428225 then 11
    else if a < 80.24923213 then 10
    else if a < 81.19801349 then 9
    else if a < 82.13956981 then 8
    else if a < 83.07199445 then 7
    else if a < 83.99173563 then 6
    else if a < 84.89166191 then 5
    else if a < 85.75541621 then 4
    else if a < 86.53536998 then 3
    else if a < 87.00000000 then 2
    else 1
  }

  /** The two tables agree for every latitude. */
  lemma SameTable(lat: real)
    ensures BridgeNL(lat) == CprNL(lat)
  {
    JumpsSkipNothing(lat);
  }

  // Dividing the fields first or the difference last gives the same index.
  lemma SameLatIndex(even: int, odd: int)
    ensures Floor(59.0 * ((even as real) / TWO17) - 60.0 * ((odd as real) / TWO17) + 0.5) == LatIndex(even, odd)
  {
  }

  lemma BridgeLats(j: int, even: int, odd: int)
    ensures 6.0 * ((CprModInt(j, 60) as real) + (even as real) / TWO17) == FrameLat(j, even, 60)
    ensures 360.0 / 59.0 * ((CprModInt(j, 59) as real) + (odd as real) / TWO17) == FrameLat(j, odd, 59)
  {
  }

  function BridgeLonIndex(evenLon: int, oddLon: int, nl: int): int {
    Floor((evenLon as real) / TWO17 * ((nl - 1) as real) - (oddLon as real) / TWO17 * (nl as real) + 0.5)
  }

  lemma SameLonIndex(even: int, odd: int, nl: int)
    ensures BridgeLonIndex(even, odd, nl) == LonIndex(even, odd, nl)
  {
  }

  // The longitude of a field in its zone, one turn to the east of Greenwich.
  function EastLon(zones: int, m: int, field: int): real
    requires zones >= 1
  {
    360.0 / (zones as real) * ((CprModInt(m, zones) as real) + (field as real) / TWO17)
  }

  lemma OneTurn(zones: int, m: int, t: int)
    requires zones >= 1 && 0 <= t < BINS
    ensures 0.0 <= EastLon(zones, m, t) < 360.0
  {
    WithinTurn(zones, (CprModInt(m, zones) as real) + (t as real) / TWO17);
  }

  lemma FrameLonIsEast(lat: real, fflag: bool, evenLon: int, oddLon: int)
    ensures FrameLon(lat, fflag, evenLon, oddLon) ==
      EastLon(CprN(lat, fflag), LonIndex(evenLon, oddLon, CprNL(lat)), if fflag then oddLon else evenLon)
  {
    hide LonIndex, CprModInt, CprN;
  }

  /** The longitude part of decode_global_position. */
  function BridgeLon(lat: real, useOdd: bool, evenLon: int, oddLon: int): real {
    var nl := if BridgeNL(lat) - (if useOdd then 1 else 0) < 1 then 1 else BridgeNL(lat) - (if useOdd then 1 else 0);
    var m := BridgeLonIndex(evenLon, oddLon, BridgeNL(lat));
    var field := if useOdd then oddLon else evenLon;
    var lon := EastLon(nl, m, field);
    if lon > 180.0 then lon - 360.0 else lon
  }

  lemma BridgeLonMatches(lat: real, useOdd: bool, evenLon: int, oddLon: int)
    requires 0 <= evenLon < BINS && 0 <= oddLon < BINS
    ensures var x := FrameLon(lat, useOdd, evenLon, oddLon);
      0.0 <= x < 360.0 && BridgeLon(lat, useOdd, evenLon, oddLon) == if x > 180.0 then x - 360.0 else x
  {
    hide CprNL, BridgeNL, LonIndex, BridgeLonIndex, CprModInt, EastLon, FrameLon;
    SameTable(lat);
    FrameLonIsEast(lat, useOdd, evenLon, oddLon);
    SameLonIndex(evenLon, oddLon, BridgeNL(lat));
    OneTurn(CprN(lat, useOdd), LonIndex(evenLon, oddLon, CprNL(lat)), if useOdd then oddLon else evenLon);
  }

  lemma WrappedTurn(x: real)
    requires 0.0 <= x < 360.0
    ensures Wrapped(x) == if x < 180.0 then x else x - 360.0
  {
  }

  // The airborne decoder's answer, its last step written as a comparison.
  lemma FixByTurn(evenLat: int, evenLon: int, oddLat: int, oddLon: int, fflag: bool)
    requires 0 <= evenLon < BINS && 0 <= oddLon < BINS
    ensures var fix := DecodeCPRairborne(evenLat, evenLon, oddLat, oddLon, fflag);
      fix.Position? ==>
        var x := FrameLon(fix.lat, fflag, evenLon, oddLon);
        0.0 <= x < 360.0 && fix.lon == if x < 180.0 then x else x - 360.0
  {
    hide Wrapped, LonIndex, CprModInt, CprNL, EastLon, FrameLon;
    var fix := DecodeCPRairborne(evenLat, evenLon, oddLat, oddLon, fflag);
    if fix.Position? {
      var m := LonIndex(evenLon, oddLon, CprNL(fix.lat));
      FrameLonIsEast(fix.lat, fflag, evenLon, oddLon);
      OneTurn(CprN(fix.lat, fflag), m, if fflag then oddLon else evenLon);
      WrappedTurn(FrameLon(fix.lat, fflag, evenLon, oddLon));
    }
  }

  class AircraftState {
    var hasEven: bool
    var hasOdd: bool
    var evenLat: int
    var evenLon: int
    var oddLat: int
    var oddLon: int
    var evenMs: int
    var oddMs: int
    var hasLat: bool
    var hasLon: bool
    var lat: real
    var lon: real

    // The frames carry 17 bit fields.
    ghost predicate Valid()
      reads this
    {
      && 0 <= evenLat < BINS && 0 <= evenLon < BINS
      && 0 <= oddLat < BINS && 0 <= oddLon < BINS
    }

    // Both frames are there and at most ten seconds apart.
    predicate Paired()
      reads this
    {
      hasEven && hasOdd && (if evenMs >= oddMs then evenMs - oddMs else oddMs - evenMs) <= 10000
    }

    // What cpr.c decodes from the stored frames, the newer one chosen.
    function Airborne(): Fix
      reads this
    {
      DecodeCPRairborne(evenLat, evenLon, oddLat, oddLon, oddMs > evenMs)
    }

    ghost predicate SameZones()
      reads this
    {
      var j := LatIndex(evenLat, oddLat);
      CprNL(South(FrameLat(j, evenLat, 60))) == CprNL(South(FrameLat(j, oddLat, 59)))
    }

    /** decode_global_position: where the airborne decoder succeeds the bridge finds the
        same position, with longitude 180 in place of -180; where it holds the frames
        back, so does the bridge; but the bridge accepts what the decoder calls bad data. */
    method DecodeGlobalPosition() returns (ok: bool)
      requires Valid()
      modifies `lat, `lon, `hasLat, `hasLon
      ensures ok <==> old(Paired()) && old(SameZones())
      ensures old(Paired()) && old(Airborne()).Position? ==> ok && lat == old(Airborne()).lat
      ensures ok ==> var j := LatIndex(evenLat, oddLat);
          lat == if oddMs > evenMs then South(FrameLat(j, oddLat, 59)) else South(FrameLat(j, evenLat, 60))
      ensures old(Paired()) && old(Airborne()).Position? ==> lon == EastAt180(old(Airborne()).lon)
      ensures old(Airborne()).ZoneCrossed? ==> !ok
      ensures ok && !old(Airborne()).Position? <==> old(Paired()) && old(SameZones()) && BeyondPole(evenLat, oddLat)
      ensures ok ==> hasLat && hasLon
      ensures !ok ==> unchanged(this)
    {
      hide LatIndex, FrameLat, FrameLon, BridgeLon, Floor, CprModInt, CprNL, BridgeNL, Wrapped;
      FixByTurn(evenLat, evenLon, oddLat, oddLon, oddMs > evenMs);
      ok := false;
      if !hasEven || !hasOdd {
        return;
      }
      if (if evenMs >= oddMs then evenMs - oddMs else oddMs - evenMs) > 10000 {
        return;
      }
      var even, odd := (evenLat as real) / TWO17, (oddLat as real) / TWO17;
      var j := Floor(59.0 * even - 60.0 * odd + 0.5);
      SameLatIndex(evenLat, oddLat);
      var rlatEven := 6.0 * ((CprModInt(j, 60) as real) + even);
      var rlatOdd := 360.0 / 59.0 * ((CprModInt(j, 59) as real) + odd);
      BridgeLats(j, evenLat, oddLat);
      if rlatEven >= 270.0 {
        rlatEven := rlatEven - 360.0;
      }
      if rlatOdd >= 270.0 {
        rlatOdd := rlatOdd - 360.0;
      }
      SameTable(rlatEven);
      SameTable(rlatOdd);
      if BridgeNL(rlatEven) != BridgeNL(rlatOdd) {
        return;
      }
      var useOdd := oddMs > evenMs;
      var rlat := if useOdd then rlatOdd else rlatEven;
      var rlon := BridgeLon(rlat, useOdd, evenLon, oddLon);
      BridgeLonMatches(rlat, useOdd, evenLon, oddLon);
      lat, lon, hasLat, hasLon, ok := rlat, rlon, true, true, true;
    }

    /** decode_readsb_global_position: the airborne decoder behind the same guards. */
    method DecodeReadsbGlobalPosition() returns (ok: bool)
      requires Valid()
      modifies `lat, `lon, `hasLat, `hasLon
      ensures ok <==> old(Paired()) && old(Airborne()).Position?
      ensures ok ==> hasLat && hasLon
      ensures ok ==>
          Position(lat, lon) == if oddMs > evenMs then DecodeCPRairborne(evenLat, evenLon, oddLat, oddLon, true)
              else DecodeCPRairborne(evenLat, evenLon, oddLat, oddLon, false)
      ensures !ok ==> unchanged(this)
    {
      ok := false;
      if !hasEven || !hasOdd || (if evenMs >= oddMs then evenMs - oddMs else oddMs - evenMs) > 10000 {
        return;
      }
      var fix := Airborne();
      if fix.Position? {
        lat, lon, hasLat, hasLon, ok := fix.lat, fix.lon, true, true, true;
      }
    }
  }

  function EastAt180(lon: real): real {
    if lon == -180.0 then 180.0 else lon
  }

  ghost predicate BeyondPole(evenLat: int, oddLat: int) {
    var j := LatIndex(evenLat, oddLat);
    var north, south := South(FrameLat(j, evenLat, 60)), South(FrameLat(j, oddLat, 59));
    north < -90.0 || north > 90.0 || south < -90.0 || south > 90.0
  }

  /** The two decoders of the bridge part only on latitudes beyond a pole, which cpr.c
      rejects: frames that claim 93 degrees north are one such pair. */
  lemma BridgeMissesThePoleCheck(evenLon: int, oddLon: int, fflag: bool)
    ensures DecodeCPRairborne(65536, evenLon, 32768, oddLon, fflag) == BadData
    ensures var j := LatIndex(65536, 32768);
      CprNL(South(FrameLat(j, 65536, 60))) == CprNL(South(FrameLat(j, 32768, 59)))
    ensures BeyondPole(65536, 32768)
  {
    assert LatIndex(65536, 32768) == 15;
    assert FrameLat(15, 65536, 60) == 93.0;
    assert FrameLat(15, 32768, 59) == 360.0 / 59.0 * 15.25;
  }
}
