/** decodeCPRsurface of cpr.c: on the ground positions are encoded in quarter turns, and a
    reference position tells which quarter is meant. */
module CprSurface {
  import opened LongitudeZones
  import opened Cpr

  // -------------------------------------------------------------------- decoder

  // The latitude of a frame north of the equator, 0 to 90 degrees.
  function SurfaceLat(j: int, cprlat: int, zones: int): real
    requires zones > 0
  {
    90.0 / (zones as real) * ((CprModInt(j, zones) as real) + (cprlat as real) / TWO17)
  }

  // The hemisphere whose solution is nearer to the reference; -90, 0 and 90 all encode to 0.
  function Hemisphere(rlat: real, reflat: real): real {
    if rlat == 0.0 then
      if reflat < -45.0 then -90.0 else if reflat > 45.0 then 90.0 else rlat
    else if rlat - reflat > 45.0 then rlat - 90.0
    else rlat
  }

  function SurfaceLon(rlat: real, fflag: bool, evenCprlon: int, oddCprlon: int): real {
    var m := LonIndex(evenCprlon, oddCprlon, CprNL(rlat));
    var cprlon := if fflag then oddCprlon else evenCprlon;
    CprDlon(rlat, fflag, true) * ((CprModInt(m, CprN(rlat, fflag)) as real) + (cprlon as real) / TWO17)
  }

  // The quarter turn nearest to the reference.
  function Quadrant(rlon: real, reflon: real): real {
    rlon + (Floor((reflon - rlon + 45.0) / 90.0) as real) * 90.0
  }

  function DecodeCPRsurface(reflat: real, reflon: real, evenCprlat: int, evenCprlon: int,
                            oddCprlat: int, oddCprlon: int, fflag: bool): Fix {
    var j := LatIndex(evenCprlat, oddCprlat);
    var rlat0 := Hemisphere(SurfaceLat(j, evenCprlat, 60), reflat);
    var rlat1 := Hemisphere(SurfaceLat(j, oddCprlat, 59), reflat);
    if rlat0 < -90.0 || rlat0 > 90.0 || rlat1 < -90.0 || rlat1 > 90.0 then BadData
    else if CprNL(rlat0) != CprNL(rlat1) then ZoneCrossed
    else
      var rlat := if fflag then rlat1 else rlat0;
      Position(rlat, Wrapped(Quadrant(SurfaceLon(rlat, fflag, evenCprlon, oddCprlon), reflon)))
  }

  // -------------------------------------------------------------------- encoder

  // The surface encoding of a position is the airborne encoding of four times its angles.
  function SurfaceLatBin(lat: real, fflag: bool): int {
    LatBin(4.0 * lat, fflag)
  }

  function SurfaceEncodedLat(lat: real, fflag: bool): real {
    EncodedLat(4.0 * lat, fflag) / 4.0
  }

  function SurfaceLonBin(lat: real, lon: real, fflag: bool): int {
    Bin(InZones(4.0 * lon, CprN(SurfaceEncodedLat(lat, fflag), fflag)))
  }

  function SurfaceEncodedLon(lat: real, lon: real, fflag: bool): real {
    InDegrees(BinPosition(SurfaceLonBin(lat, lon, fflag)), CprN(SurfaceEncodedLat(lat, fflag), fflag)) / 4.0
  }

  // ------------------------------------------------------------------- round trip

  // A position less than 45 degrees from the reference is the one its quarter turn gives.
  lemma HemisphereRecovered(lat: real, rlat: real, k: int, reflat: real)
    requires -90.0 <= lat <= 90.0 && 0.0 <= rlat < 90.0 && rlat == lat - 90.0 * (k as real)
    requires -45.0 < lat - reflat < 45.0
    ensures Hemisphere(rlat, reflat) == lat
  {
    assert -1 <= k <= 1;
  }

  lemma QuadrantRecovered(lon: real, rlon: real, k: int, reflon: real)
    requires rlon == lon - 90.0 * (k as real) && -45.0 < lon - reflon < 45.0
    ensures Quadrant(rlon, reflon) == lon
  {
    hide Floor;
    var y := (reflon - lon + 45.0) / 90.0;
    assert (reflon - rlon + 45.0) / 90.0 == (k as real) + (y - 0.5) + 0.5;
    FloorNear(k, y - 0.5);
  }

  lemma LatBinBound(lat: real, fflag: bool)
    requires -90.0 <= lat <= 90.0
    ensures -LatZones(fflag) * BINS <= SurfaceLatBin(lat, fflag) <= LatZones(fflag) * BINS
  {
  }

  lemma EncodedBound(lat: real, fflag: bool)
    requires -90.0 <= lat <= 90.0
    ensures -90.0 <= SurfaceEncodedLat(lat, fflag) <= 90.0
  {
    LatBinBound(lat, fflag);
    hide LatBin;
    BoundInDegrees(SurfaceLatBin(lat, fflag), fflag);
  }

  lemma BoundInDegrees(bin: int, fflag: bool)
    requires -LatZones(fflag) * BINS <= bin <= LatZones(fflag) * BINS
    ensures -360.0 <= InDegrees(BinPosition(bin), LatZones(fflag)) <= 360.0
  {
    if fflag {
      assert -59.0 <= BinPosition(bin) <= 59.0;
    } else {
      assert -60.0 <= BinPosition(bin) <= 60.0;
    }
  }

  // A quarter of FullTurns.
  lemma QuarterTurns(zones: int, z: int, t: int)
    requires zones >= 1 && 0 <= t < BINS
    ensures var x := 90.0 / (zones as real) * (((z % zones) as real) + (t as real) / TWO17);
      && x == InDegrees((z as real) + (t as real) / TWO17, zones) / 4.0 - 90.0 * ((z / zones) as real)
      && 0.0 <= x < 90.0
  {
    var r := ((z % zones) as real) + (t as real) / TWO17;
    FullTurns(zones, z, t);
    Quarter(zones as real, r);
    WithinTurn(zones, r);
  }

  lemma Quarter(zones: real, r: real)
    requires zones > 0.0
    ensures 90.0 / zones * r == 360.0 / zones * r / 4.0 == Times(360.0 / zones, r) / 4.0
  {
  }

  lemma SurfaceLatRecovered(lat: real, fflag: bool, j: int, k: int, reflat: real)
    requires -90.0 <= lat <= 90.0 && -45.0 < SurfaceEncodedLat(lat, fflag) - reflat < 45.0
    requires j == Zone(SurfaceLatBin(lat, fflag)) + LatZones(fflag) * k
    ensures Hemisphere(SurfaceLat(j, Transmitted(SurfaceLatBin(lat, fflag)), LatZones(fflag)), reflat) ==
        SurfaceEncodedLat(lat, fflag)
    ensures -90.0 <= SurfaceEncodedLat(lat, fflag) <= 90.0
  {
    hide CprModInt, Hemisphere, LatBin, InDegrees, BinPosition, Zone, Transmitted;
    var b, zones := SurfaceLatBin(lat, fflag), LatZones(fflag);
    EncodedBound(lat, fflag);
    BinSplit(b);
    SameZone(j, Zone(b), k, zones);
    QuarterTurns(zones, Zone(b), Transmitted(b));
    HemisphereRecovered(SurfaceEncodedLat(lat, fflag), SurfaceLat(j, Transmitted(b), zones), Zone(b) / zones, reflat);
  }

  // Both latitudes are recovered from the frames' fields.
  lemma SurfaceLatsRecovered(lat0: real, lat1: real, reflat: real)
    requires -90.0 <= lat0 <= 90.0 && -90.0 <= lat1 <= 90.0
    requires -LAT_TOLERANCE < 4.0 * lat0 - 4.0 * lat1 < LAT_TOLERANCE
    requires -45.0 < SurfaceEncodedLat(lat0, false) - reflat < 45.0
    requires -45.0 < SurfaceEncodedLat(lat1, true) - reflat < 45.0
    ensures var t0, t1 := Transmitted(SurfaceLatBin(lat0, false)), Transmitted(SurfaceLatBin(lat1, true));
      && Hemisphere(SurfaceLat(LatIndex(t0, t1), t0, 60), reflat) == SurfaceEncodedLat(lat0, false)
      && Hemisphere(SurfaceLat(LatIndex(t0, t1), t1, 59), reflat) == SurfaceEncodedLat(lat1, true)
    ensures -90.0 <= SurfaceEncodedLat(lat0, false) <= 90.0 && -90.0 <= SurfaceEncodedLat(lat1, true) <= 90.0
  {
    hide LatIndex, LatBin, Transmitted, Zone, Hemisphere, SurfaceLat, SurfaceEncodedLat;
    LatIndexRecovered(4.0 * lat0, 4.0 * lat1);
    var z0, z1 := Zone(SurfaceLatBin(lat0, false)), Zone(SurfaceLatBin(lat1, true));
    var j := LatIndex(Transmitted(SurfaceLatBin(lat0, false)), Transmitted(SurfaceLatBin(lat1, true)));
    SurfaceLatRecovered(lat0, false, j, z1 - z0, reflat);
    SurfaceLatRecovered(lat1, true, j, z1 - z0, reflat);
  }

  lemma SurfaceLonRecovered(rlat: real, fflag: bool, lon0: real, lon1: real, b0: int, b1: int, reflon: real)
    requires CprNL(rlat) >= 2 ==> LonClose(4.0 * lon0, 4.0 * lon1, CprNL(rlat))
    requires LonBins(4.0 * lon0, 4.0 * lon1, CprNL(rlat), b0, b1)
    requires var lon :=
        InDegrees(BinPosition(if fflag then b1 else b0), CprN(rlat, fflag)) / 4.0; -45.0 < lon - reflon < 45.0
    ensures Quadrant(SurfaceLon(rlat, fflag, Transmitted(b0), Transmitted(b1)), reflon) ==
      InDegrees(BinPosition(if fflag then b1 else b0), CprN(rlat, fflag)) / 4.0
  {
    hide CprNL, LonBins, LonClose, Transmitted, Zone, LonIndex, CprModInt, InDegrees, BinPosition, Quadrant;
    var b := if fflag then b1 else b0;
    var ni := CprN(rlat, fflag);
    ZoneRecovered(CprNL(rlat), fflag, 4.0 * lon0, 4.0 * lon1, b0, b1);
    BinSplit(b);
    QuarterTurns(ni, Zone(b), Transmitted(b));
    QuadrantRecovered(InDegrees(BinPosition(b), ni) / 4.0,
        SurfaceLon(rlat, fflag, Transmitted(b0), Transmitted(b1)), Zone(b) / ni, reflon);
  }

  /** On the ground, too, decoding undoes encoding, for positions less than 45 degrees from
      the reference: they never read as bad data, are held back exactly when their encoded
      latitudes lie in different longitude zones, and else come back to the bin. */
  lemma SurfaceRoundTrip(lat0: real, lon0: real, lat1: real, lon1: real, fflag: bool, reflat: real, reflon: real)
    requires -90.0 <= lat0 <= 90.0 && -90.0 <= lat1 <= 90.0
    requires -LAT_TOLERANCE < 4.0 * lat0 - 4.0 * lat1 < LAT_TOLERANCE
    requires var n := CprNL(SurfaceEncodedLat(lat0, false)); n >= 2 ==> LonClose(4.0 * lon0, 4.0 * lon1, n)
    requires -45.0 < SurfaceEncodedLat(lat0, false) - reflat < 45.0
    requires -45.0 < SurfaceEncodedLat(lat1, true) - reflat < 45.0
    requires var lat, lon := if fflag then lat1 else lat0, if fflag then lon1 else lon0;
      -45.0 < SurfaceEncodedLon(lat, lon, fflag) - reflon < 45.0
    ensures
      var fix := DecodeCPRsurface(reflat, reflon,
        Transmitted(SurfaceLatBin(lat0, false)), Transmitted(SurfaceLonBin(lat0, lon0, false)),
        Transmitted(SurfaceLatBin(lat1, true)), Transmitted(SurfaceLonBin(lat1, lon1, true)), fflag);
      var lat, lon := if fflag then lat1 else lat0, if fflag then lon1 else lon0;
      && !fix.BadData?
      && (fix.ZoneCrossed? <==> CprNL(SurfaceEncodedLat(lat0, false)) != CprNL(SurfaceEncodedLat(lat1, true)))
      && (fix.Position? ==> fix.lat == SurfaceEncodedLat(lat, fflag) && -180.0 <= fix.lon < 180.0)
      && (fix.Position? ==> SameMeridian(fix.lon, SurfaceEncodedLon(lat, lon, fflag)))
  {
    hide LatIndex, LatBin, Transmitted, Hemisphere, SurfaceLat, LonIndex, SurfaceLon, Quadrant, Wrapped, CprNL,
        LonClose,
      Bin, BinPosition, InDegrees, SurfaceEncodedLat;
    SurfaceLatsRecovered(lat0, lat1, reflat);
    var l0, l1 := SurfaceEncodedLat(lat0, false), SurfaceEncodedLat(lat1, true);
    if CprNL(l0) == CprNL(l1) {
      var b0, b1 := SurfaceLonBin(lat0, lon0, false), SurfaceLonBin(lat1, lon1, true);
      var rlat := if fflag then l1 else l0;
      SurfaceLonRecovered(rlat, fflag, lon0, lon1, b0, b1, reflon);
      var k := WrappedIsTurned(Quadrant(SurfaceLon(rlat, fflag, Transmitted(b0), Transmitted(b1)), reflon));
    }
  }
}
