/** The number of longitude zones, as cpr.c and native_modes_decoder.cpp tabulate it. */
module LongitudeZones {

  function Abs(x: real): (r: real)
    ensures r >= 0.0 && (r == x || r == -x)
  {
    if x < 0.0 then -x else x
  }

  // The parts of the table that cpr.c jumps to.
  function FromL60(lat: real): int {
    if lat < 61.04917774 then 29
    else if lat < 62.13216659 then 28
    else if lat < 63.20427479 then 27
    else if lat < 64.26616523 then 26
    else if lat < 65.31845310 then 25
    else if lat < 66.36171008 then 24
    else if lat < 67.39646774 then 23
    else if lat < 68.42322022 then 22
    else if lat < 69.44242631 then 21
    else if lat < 70.45451075 then 20
    else if lat < 71.45986473 then 19
    else if lat < 72.45884545 then 18
    else if lat < 73.45177442 then 17
    else if lat < 74.43893416 then 16
    else if lat < 75.42056257 then 15
    else if lat < 76.39684391 then 14
    else if lat < 77.36789461 then 13
    else if lat < 78.33374083 then 12
    else if lat < 79.29428225 then 11
    else if lat < 80.24923213 then 10
    else if lat < 81.19801349 then 9
    else if lat < 82.13956981 then 8
    else if lat < 83.07199445 then 7
    else if lat < 83.99173563 then 6
    else if lat < 84.89166191 then 5
    else if lat < 85.75541621 then 4
    else if lat < 86.53536998 then 3
    else if lat < 87.00000000 then 2
    else 1
  }

  function FromL442(lat: real): int {
    if lat < 45.54626723 then 42
    else if lat < 46.86733252 then 41
    else if lat < 48.16039128 then 40
    else if lat < 49.42776439 then 39
    else if lat < 50.67150166 then 38
    else if lat < 51.89342469 then 37
    else if lat < 53.09516153 then 36
    else if lat < 54.27817472 then 35
    else if lat < 55.44378444 then 34
    else if lat < 56.59318756 then 33
    else if lat < 57.72747354 then 32
    else if lat < 58.84763776 then 31
    else if lat < 59.95459277 then 30
    else FromL60(lat)
  }

  function FromL30(lat: real): int {
    if lat < 31.77209708 then 51
    else if lat < 33.53993436 then 50
    else if lat < 35.22899598 then 49
    else if lat < 36.85025108 then 48
    else if lat < 38.41241892 then 47
    else if lat < 39.92256684 then 46
    else if lat < 41.38651832 then 45
    else if lat < 42.80914012 then 44
    else if lat < 44.19454951 then 43
    else FromL442(lat)
  }

  function FromEquator(lat: real): int {
    if lat < 10.47047130 then 59
    else if lat < 14.82817437 then 58
    else if lat < 18.18626357 then 57
    else if lat < 21.02939493 then 56
    else if lat < 23.54504487 then 55
    else if lat < 25.82924707 then 54
    else if lat < 27.93898710 then 53
    else if lat < 29.91135686 then 52
    else FromL30(lat)
  }

  /** cprNLFunction */
  function CprNL(latitude: real): (nl: int)
    ensures 1 <= nl <= 59
  {
    var lat := Abs(latitude);
    if lat > 60.0 then FromL60(lat)
    else if lat > 44.2 then FromL442(lat)
    else if lat > 30.0 then FromL30(lat)
    else FromEquator(lat)
  }

  /** The jumps of cprNLFunction skip only entries that cannot match. */
  lemma JumpsSkipNothing(latitude: real)
    ensures CprNL(latitude) == FromEquator(Abs(latitude))
  {
  }

  /** Towards the poles, on either side of the equator, there are never more zones. */
  lemma ZonesShrink(lat0: real, lat1: real)
    requires Abs(lat0) <= Abs(lat1)
    ensures CprNL(lat0) >= CprNL(lat1)
  {
    JumpsSkipNothing(lat0);
    JumpsSkipNothing(lat1);
  }
}
