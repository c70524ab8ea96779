/** Compact position reporting: the decoders of cpr.c over exact reals, and the encoder
    of section A.1.7 of RTCA DO-260B that they undo. */
module Cpr {
  import opened LongitudeZones

  const BINS: int := 131072
  const TWO17: real := 131072.0

  // ------------------------------------------------------------- helper functions

  // C's remainder, which has the sign of the dividend.
  function TruncatedRemainder(a: int, b: int): int
    requires b > 0
  {
    if a >= 0 then a % b else -((-a) % b)
  }

  function CprModInt(a: int, b: int): (r: int)
    requires b > 0
    ensures 0 <= r < b
  {
    var res := TruncatedRemainder(a, b);
    if res < 0 then res + b else res
  }

  function Floor(x: real): int {
    x.Floor
  }

  // Multiplication by name, so that proofs can keep a product closed.
  function Times(r: real, x: real): real {
    r * x
  }

  // fmod for a positive divisor, followed by the correction of cprModDouble.
  function CprModDouble(a: real, b: real): real
    requires b > 0.0
  {
    var q := a / b;
    var truncated := if q >= 0.0 then Floor(q) else -Floor(-q);
    var res := a - Times(b, truncated as real);
    if res < 0.0 then res + b else res
  }

  function CprN(lat: real, fflag: bool): (n: int)
    ensures n >= 1
  {
    var nl := CprNL(lat) - (if fflag then 1 else 0);
    if nl < 1 then 1 else nl
  }

  function CprDlon(lat: real, fflag: bool, surface: bool): (d: real)
    ensures d > 0.0
  {
    (if surface then 90.0 else 360.0) / (CprN(lat, fflag) as real)
  }

  datatype Fix = BadData | ZoneCrossed | Position(lat: real, lon: real)

  // --------------------------------------------------------------------- decoder

  function Wrapped(lon: real): real {
    lon - ((Floor((lon + 180.0) / 360.0) as real) * 360.0)
  }

  function South(rlat: real): real {
    if rlat >= 270.0 then rlat - 360.0 else rlat
  }

  // The latitude that a zone index j gives to an even or an odd frame.
  function FrameLat(j: int, cprlat: int, zones: int): real
    requires zones > 0
  {
    (360.0 / (zones as real)) * ((CprModInt(j, zones) as real) + (cprlat as real) / TWO17)
  }

  function LatIndex(evenCprlat: int, oddCprlat: int): int {
    Floor((59.0 * (evenCprlat as real) - 60.0 * (oddCprlat as real)) / TWO17 + 0.5)
  }

  function LonIndex(evenCprlon: int, oddCprlon: int, nl: int): int {
    Floor(((evenCprlon as real) * ((nl - 1) as real) - (oddCprlon as real) * (nl as real)) / TWO17 + 0.5)
  }

  function FrameLon(rlat: real, fflag: bool, evenCprlon: int, oddCprlon: int): real {
    var m := LonIndex(evenCprlon, oddCprlon, CprNL(rlat));
    var cprlon := if fflag then oddCprlon else evenCprlon;
    CprDlon(rlat, fflag, false) * ((CprModInt(m, CprN(rlat, fflag)) as real) + (cprlon as real) / TWO17)
  }

  function DecodeCPRairborne(evenCprlat: int, evenCprlon: int, oddCprlat: int, oddCprlon: int, fflag: bool): Fix {
    var j := LatIndex(evenCprlat, oddCprlat);
    var rlat0 := South(FrameLat(j, evenCprlat, 60));
    var rlat1 := South(FrameLat(j, oddCprlat, 59));
    if rlat0 < -90.0 || rlat0 > 90.0 || rlat1 < -90.0 || rlat1 > 90.0 then BadData
    else if CprNL(rlat0) != CprNL(rlat1) then ZoneCrossed
    else
      var rlat := if fflag then rlat1 else rlat0;
      Position(rlat, Wrapped(FrameLon(rlat, fflag, evenCprlon, oddCprlon)))
  }

  // --------------------------------------------------------------------- encoder

  // The nearest bin to a position of u zones.
  function Bin(u: real): int {
    Floor(TWO17 * u + 0.5)
  }

  // The position of a bin, in zones.
  function BinPosition(bin: int): real {
    (bin as real) / TWO17
  }

  // Degrees counted in zones, and back.
  function InZones(degrees: real, zones: int): real {
    degrees * (zones as real) / 360.0
  }

  function InDegrees(position: real, zones: int): real
    requires zones > 0
  {
    position * 360.0 / (zones as real)
  }

  // The 17 bits that are transmitted for a bin, and the zone they leave out.
  function Transmitted(bin: int): int {
    bin % BINS
  }

  function Zone(bin: int): int {
    bin / BINS
  }

  function LatZones(fflag: bool): int {
    if fflag then 59 else 60
  }

  function LatBin(lat: real, fflag: bool): int {
    Bin(InZones(lat, LatZones(fflag)))
  }

  // The latitude that the encoded bin stands for.
  function EncodedLat(lat: real, fflag: bool): real {
    InDegrees(BinPosition(LatBin(lat, fflag)), LatZones(fflag))
  }

  function LonBin(lat: real, lon: real, fflag: bool): int {
    Bin(InZones(lon, CprN(EncodedLat(lat, fflag), fflag)))
  }

  function EncodedLon(lat: real, lon: real, fflag: bool): real {
    InDegrees(BinPosition(LonBin(lat, lon, fflag)), CprN(EncodedLat(lat, fflag), fflag))
  }

  // ------------------------------------------------------------- integer remainders

  lemma CprModIntIsMod(a: int, b: int)
    requires b > 0
    ensures CprModInt(a, b) == a % b
  {
    if a < 0 {
      var q, r := (-a) / b, (-a) % b;
      assert -a == q * b + r;
      if r == 0 {
        ModOfMultiple(a, b, -q, 0);
      } else {
        ModOfMultiple(a, b, -q - 1, b - r);
      }
    }
  }

  lemma ModOfMultiple(a: int, b: int, q: int, r: int)
    requires b > 0 && 0 <= r < b && a == q * b + r
    ensures a % b == r
  {
    var d := a / b - q;
    assert d * b == r - a % b;
    if d >= 1 {
      TimesAtLeast(d, b);
    } else if d <= -1 {
      TimesAtMost(d, b);
    }
  }

  lemma TimesAtLeast(d: int, b: int)
    requires d >= 1 && b > 0
    ensures d * b >= b
  {
  }

  lemma TimesAtMost(d: int, b: int)
    requires d <= -1 && b > 0
    ensures d * b <= -b
  {
  }

  /** Dropping multiples of n from an index leaves its zone. */
  lemma SameZone(j: int, z: int, k: int, n: int)
    requires n > 0 && j == z + k * n
    ensures CprModInt(j, n) == z % n
  {
    CprModIntIsMod(j, n);
    ModOfMultiple(j, n, z / n + k, z % n);
  }

  lemma BinSplit(bin: int)
    ensures BinPosition(bin) == (Zone(bin) as real) + (Transmitted(bin) as real) / TWO17
    ensures 0 <= Transmitted(bin) < BINS
  {
    assert bin == Zone(bin) * BINS + Transmitted(bin);
    assert (bin as real) == (Zone(bin) as real) * TWO17 + (Transmitted(bin) as real);
  }

  lemma BinNear(u: real)
    ensures -0.5 / TWO17 <= BinPosition(Bin(u)) - u <= 0.5 / TWO17
  {
  }

  lemma FloorNear(k: int, x: real)
    requires -0.5 <= x < 0.5
    ensures Floor((k as real) + x + 0.5) == k
  {
  }

  // ------------------------------------------------------------------- latitude

  // Half of the smallest distance at which the two zone grids can be confused, less
  // the rounding of both frames.
  const LAT_TOLERANCE: real := (0.5 - 119.0 / 262144.0) * 360.0 / 3540.0

  /** The latitude index identifies both zones. */
  lemma LatIndexRecovered(lat0: real, lat1: real)
    requires -LAT_TOLERANCE < lat0 - lat1 < LAT_TOLERANCE
    ensures LatIndex(Transmitted(LatBin(lat0, false)), Transmitted(LatBin(lat1, true))) ==
      60 * Zone(LatBin(lat1, true)) - 59 * Zone(LatBin(lat0, false))
  {
    hide Bin, BinPosition, Transmitted, Zone, Floor;
    var b0, b1 := LatBin(lat0, false), LatBin(lat1, true);
    var u0, u1 := InZones(lat0, 60), InZones(lat1, 59);
    BinSplit(b0);
    BinSplit(b1);
    BinNear(u0);
    BinNear(u1);
    var p0, p1 := BinPosition(b0), BinPosition(b1);
    var k := 60 * Zone(b1) - 59 * Zone(b0);
    var x := 59.0 * p0 - 60.0 * p1;
    assert 59.0 * u0 - 60.0 * u1 == (lat0 - lat1) * 3540.0 / 360.0;
    assert -0.5 < x < 0.5;
    assert (59.0 * (Transmitted(b0) as real) - 60.0 * (Transmitted(b1) as real)) / TWO17 == (k as real) + x;
    FloorNear(k, x);
  }

  lemma EvenBinBound(lat: real)
    requires -90.0 <= lat <= 90.0
    ensures -15 * BINS <= LatBin(lat, false) <= 15 * BINS
  {
  }

  lemma OddBinBound(lat: real)
    requires -90.0 <= lat <= 90.0
    ensures -1933312 <= LatBin(lat, true) <= 1933312
  {
  }

  /** Each frame's latitude is then its encoded latitude, north or south. */
  lemma EvenLatRecovered(lat: real, j: int, k: int)
    requires -90.0 <= lat <= 90.0
    requires j == Zone(LatBin(lat, false)) + 60 * k
    ensures South(FrameLat(j, Transmitted(LatBin(lat, false)), 60)) == EncodedLat(lat, false)
    ensures -90.0 <= EncodedLat(lat, false) <= 90.0
  {
    var b := LatBin(lat, false);
    EvenBinBound(lat);
    hide LatBin, CprModInt;
    BinSplit(b);
    SameZone(j, Zone(b), k, 60);
    assert Zone(b) % 60 == if Zone(b) >= 0 then Zone(b) else Zone(b) + 60;
  }

  lemma OddLatRecovered(lat: real, j: int, k: int)
    requires -90.0 <= lat <= 90.0
    requires j == Zone(LatBin(lat, true)) + 59 * k
    ensures South(FrameLat(j, Transmitted(LatBin(lat, true)), 59)) == EncodedLat(lat, true)
    ensures -90.0 <= EncodedLat(lat, true) <= 90.0
  {
    var b := LatBin(lat, true);
    OddBinBound(lat);
    hide LatBin, CprModInt;
    BinSplit(b);
    SameZone(j, Zone(b), k, 59);
    assert Zone(b) % 59 == if Zone(b) >= 0 then Zone(b) else Zone(b) + 59;
  }

  // ------------------------------------------------------------------ longitude

  // The longitudes are close enough for zone grids of n and n - 1 cells: the same
  // bound as for latitudes, with n (n - 1) in place of 60 * 59.
  ghost predicate LonClose(lon0: real, lon1: real, n: int) {
    Abs((n as real) * ((n - 1) as real) * (lon0 - lon1) / 360.0) < 0.5 - ((2 * n - 1) as real) / 262144.0
  }

  lemma MulBound(n: int, r: real, e: real)
    requires n >= 0 && r == n as real && -0.5 / TWO17 <= e <= 0.5 / TWO17
    ensures -0.5 * r / TWO17 <= r * e <= 0.5 * r / TWO17
  {
    Scale(r, -0.5 / TWO17, e);
    Scale(r, e, 0.5 / TWO17);
  }

  lemma Scale(r: real, a: real, b: real)
    requires r >= 0.0 && a <= b
    ensures r * a <= r * b
  {
  }

  lemma Distribute(r: real, a: real, b: real)
    ensures r * (a + b) == r * a + r * b
  {
  }

  lemma TimesSum(r: real, a: real, b: real)
    ensures Times(r, a + b) == Times(r, a) + Times(r, b)
  {
  }

  lemma TimesBound(n: int, r: real, e: real)
    requires n >= 0 && r == n as real && -0.5 / TWO17 <= e <= 0.5 / TWO17
    ensures -0.5 * r / TWO17 <= Times(r, e) <= 0.5 * r / TWO17
  {
    MulBound(n, r, e);
  }

  // The two zone grids measure the same difference of longitudes.
  lemma GridDifference(n: int, lon0: real, lon1: real)
    ensures Times((n - 1) as real, InZones(lon0, n)) - Times(n as real, InZones(lon1, n - 1)) ==
      (n as real) * ((n - 1) as real) * (lon0 - lon1) / 360.0
  {
    var a, b := n as real, (n - 1) as real;
    assert b * (lon0 * a / 360.0) == a * b * lon0 / 360.0;
    assert a * (lon1 * b / 360.0) == a * b * lon1 / 360.0;
    assert a * b * (lon0 - lon1) == a * b * lon0 - a * b * lon1;
  }

  // Rounding moves the weighted difference of two positions by at most half a bin each.
  lemma WeightedNear(n: int, r: real, q: real, u0: real, u1: real, p0: real, p1: real)
    requires n >= 2 && r == n as real && q == (n - 1) as real
    requires -0.5 / TWO17 <= p0 - u0 <= 0.5 / TWO17 && -0.5 / TWO17 <= p1 - u1 <= 0.5 / TWO17
    requires Abs(Times(q, u0) - Times(r, u1)) < 0.5 - ((2 * n - 1) as real) / 262144.0
    ensures -0.5 < Times(q, p0) - Times(r, p1) < 0.5
  {
    hide Times;
    TimesBound(n - 1, q, p0 - u0);
    TimesBound(n, r, p1 - u1);
    TimesSum(q, u0, p0 - u0);
    TimesSum(r, u1, p1 - u1);
    assert u0 + (p0 - u0) == p0 && u1 + (p1 - u1) == p1;
    SumNear(r, q, Times(q, u0), Times(q, p0 - u0), Times(r, u1), Times(r, p1 - u1), ((2 * n - 1) as real) / 262144.0);
  }

  lemma SumNear(r: real, q: real, a0: real, d0: real, a1: real, d1: real, slack: real)
    requires slack == (r + q) / 262144.0 && Abs(a0 - a1) < 0.5 - slack
    requires -0.5 * q / TWO17 <= d0 <= 0.5 * q / TWO17 && -0.5 * r / TWO17 <= d1 <= 0.5 * r / TWO17
    ensures -0.5 < (a0 + d0) - (a1 + d1) < 0.5
  {
  }

  /** The longitude index identifies both zones. */
  lemma LonIndexRecovered(n: int, lon0: real, lon1: real, b0: int, b1: int)
    requires 2 <= n && LonClose(lon0, lon1, n)
    requires b0 == Bin(InZones(lon0, n)) && b1 == Bin(InZones(lon1, n - 1))
    ensures LonIndex(Transmitted(b0), Transmitted(b1), n) == n * Zone(b1) - (n - 1) * Zone(b0)
  {
    hide Bin, BinPosition, Transmitted, Zone, Floor, LonIndex, Times, InZones;
    var u0, u1 := InZones(lon0, n), InZones(lon1, n - 1);
    BinSplit(b0);
    BinSplit(b1);
    BinNear(u0);
    BinNear(u1);
    GridDifference(n, lon0, lon1);
    WeightedNear(n, n as real, (n - 1) as real, u0, u1, BinPosition(b0), BinPosition(b1));
    IndexOfSplit(n, Zone(b0), Zone(b1), Transmitted(b0), Transmitted(b1), BinPosition(b0), BinPosition(b1));
  }

  lemma IndexOfSplit(n: int, z0: int, z1: int, t0: int, t1: int, p0: real, p1: real)
    requires p0 == (z0 as real) + (t0 as real) / TWO17 && p1 == (z1 as real) + (t1 as real) / TWO17
    requires -0.5 < Times((n - 1) as real, p0) - Times(n as real, p1) < 0.5
    ensures LonIndex(t0, t1, n) == n * z1 - (n - 1) * z0
  {
    hide Floor;
    IndexSplit(n, z0, z1, t0, t1, p0, p1);
    FloorNear(n * z1 - (n - 1) * z0, ((n - 1) as real) * p0 - (n as real) * p1);
  }

  lemma IndexSplit(n: int, z0: int, z1: int, t0: int, t1: int, p0: real, p1: real)
    requires p0 == (z0 as real) + (t0 as real) / TWO17 && p1 == (z1 as real) + (t1 as real) / TWO17
    ensures ((t0 as real) * ((n - 1) as real) - (t1 as real) * (n as real)) / TWO17 ==
      ((n * z1 - (n - 1) * z0) as real) + (((n - 1) as real) * p0 - (n as real) * p1)
  {
    var r, q := n as real, (n - 1) as real;
    Distribute(q, z0 as real, (t0 as real) / TWO17);
    Distribute(r, z1 as real, (t1 as real) / TWO17);
    assert ((n * z1) as real) == r * (z1 as real);
    assert (((n - 1) * z0) as real) == q * (z0 as real);
  }

  lemma TimesLess(d: real, a: real, b: real)
    requires d > 0.0 && a < b
    ensures Times(d, a) < Times(d, b)
  {
  }

  lemma WholeTurn(zones: int)
    requires zones >= 1
    ensures Times(360.0 / (zones as real), zones as real) == 360.0 && Times(360.0 / (zones as real), 0.0) == 0.0
    ensures 360.0 / (zones as real) > 0.0
  {
  }

  // A position below the number of zones lies within a turn.
  lemma WithinTurn(zones: int, r: real)
    requires zones >= 1 && 0.0 <= r < zones as real
    ensures 0.0 <= Times(360.0 / (zones as real), r) < 360.0
  {
    hide Times;
    var d := 360.0 / (zones as real);
    WholeTurn(zones);
    TimesLess(d, r, zones as real);
    if r > 0.0 {
      TimesLess(d, 0.0, r);
    }
  }

  // A zone index taken modulo the number of zones moves the longitude by full turns.
  lemma FullTurns(ni: int, z: int, t: int)
    requires ni >= 1
    ensures 360.0 / (ni as real) * (((z % ni) as real) + (t as real) / TWO17) ==
      InDegrees((z as real) + (t as real) / TWO17, ni) - 360.0 * ((z / ni) as real)
  {
    var d := 360.0 / (ni as real);
    var a, b := (z % ni) as real, (t as real) / TWO17;
    assert z == (z / ni) * ni + z % ni;
    assert (z as real) == ((z / ni) as real) * (ni as real) + a;
    assert d * (ni as real) == 360.0;
    Distribute(d, a, b);
    Distribute(d, (z as real), b);
    Distribute(d, ((z / ni) as real) * (ni as real), a);
    assert d * (((z / ni) as real) * (ni as real)) == 360.0 * ((z / ni) as real);
  }

  // ----------------------------------------------------------------- round trip

  // A longitude moved by whole turns.
  function Turned(lon: real, k: int): real {
    lon + 360.0 * (k as real)
  }

  lemma WrappedIsTurned(lon: real) returns (k: int)
    ensures Wrapped(lon) == Turned(lon, k)
    ensures -180.0 <= Wrapped(lon) < 180.0
  {
    k := -Floor((lon + 180.0) / 360.0);
  }

  // The frames' longitude bins, for n longitude zones.
  ghost predicate LonBins(lon0: real, lon1: real, n: int, b0: int, b1: int) {
    && b0 == Bin(InZones(lon0, n))
    && b1 == Bin(InZones(lon1, OddZones(n)))
  }

  function OddZones(n: int): int {
    if n > 1 then n - 1 else 1
  }

  // The longitude index leaves the chosen frame's zone, modulo its number of zones.
  lemma ZoneRecovered(n: int, fflag: bool, lon0: real, lon1: real, b0: int, b1: int)
    requires n >= 1 && (n >= 2 ==> LonClose(lon0, lon1, n)) && LonBins(lon0, lon1, n, b0, b1)
    ensures var ni := if fflag && n > 1 then n - 1 else n;
      CprModInt(LonIndex(Transmitted(b0), Transmitted(b1), n), ni) == Zone(if fflag then b1 else b0) % ni
  {
    hide Bin, LonIndex, CprModInt, LonClose, Transmitted, Zone, InZones;
    var m, w0, w1 := LonIndex(Transmitted(b0), Transmitted(b1), n), Zone(b0), Zone(b1);
    if n == 1 {
      SameZone(m, m, 0, 1);
    } else {
      assert OddZones(n) == n - 1;
      LonIndexRecovered(n, lon0, lon1, b0, b1);
      if fflag {
        assert m == w1 + (w1 - w0) * (n - 1);
        SameZone(m, w1, w1 - w0, n - 1);
      } else {
        assert m == w0 + (w1 - w0) * n;
        SameZone(m, w0, w1 - w0, n);
      }
    }
  }

  /** The decoded longitude is the encoded one, up to whole turns. */
  lemma FrameLonRecovered(rlat: real, fflag: bool, lon0: real, lon1: real, b0: int, b1: int) returns (k: int)
    requires CprNL(rlat) >= 2 ==> LonClose(lon0, lon1, CprNL(rlat))
    requires LonBins(lon0, lon1, CprNL(rlat), b0, b1)
    ensures FrameLon(rlat, fflag, Transmitted(b0), Transmitted(b1)) ==
      Turned(InDegrees(BinPosition(if fflag then b1 else b0), CprN(rlat, fflag)), k)
  {
    hide CprNL, LonBins, LonClose, Transmitted, Zone, LonIndex, CprModInt, InDegrees, BinPosition;
    var b := if fflag then b1 else b0;
    var ni := CprN(rlat, fflag);
    ZoneRecovered(CprNL(rlat), fflag, lon0, lon1, b0, b1);
    FullTurns(ni, Zone(b), Transmitted(b));
    BinSplit(b);
    k := -(Zone(b) / ni);
  }

  ghost predicate SameMeridian(a: real, b: real) {
    exists k: int :: a == Turned(b, k)
  }

  lemma TurnedTwice(lon: real, i: int, k: int)
    ensures Turned(Turned(lon, i), k) == Turned(lon, i + k)
  {
  }

  function ZoneWidth(zones: int): (d: real)
    requires zones > 0
    ensures d > 0.0
  {
    360.0 / (zones as real)
  }

  // Half a bin, in degrees.
  function HalfBin(zones: int): real
    requires zones > 0
  {
    Times(ZoneWidth(zones), 0.5 / TWO17)
  }

  // What a receiver decodes from the even frame of one position and the odd frame of another.
  ghost function DecodeEncoded(lat0: real, lon0: real, lat1: real, lon1: real, fflag: bool): Fix {
    DecodeCPRairborne(
      Transmitted(LatBin(lat0, false)), Transmitted(LonBin(lat0, lon0, false)),
      Transmitted(LatBin(lat1, true)), Transmitted(LonBin(lat1, lon1, true)), fflag)
  }

  lemma LatsRecovered(lat0: real, lat1: real)
    requires -90.0 <= lat0 <= 90.0 && -90.0 <= lat1 <= 90.0
    requires -LAT_TOLERANCE < lat0 - lat1 < LAT_TOLERANCE
    ensures var t0, t1 := Transmitted(LatBin(lat0, false)), Transmitted(LatBin(lat1, true));
      && South(FrameLat(LatIndex(t0, t1), t0, 60)) == EncodedLat(lat0, false)
      && South(FrameLat(LatIndex(t0, t1), t1, 59)) == EncodedLat(lat1, true)
    ensures -90.0 <= EncodedLat(lat0, false) <= 90.0 && -90.0 <= EncodedLat(lat1, true) <= 90.0
  {
    hide LatIndex, LatBin, Transmitted, Zone, South, FrameLat, EncodedLat;
    LatIndexRecovered(lat0, lat1);
    var z0, z1 := Zone(LatBin(lat0, false)), Zone(LatBin(lat1, true));
    var j := LatIndex(Transmitted(LatBin(lat0, false)), Transmitted(LatBin(lat1, true)));
    EvenLatRecovered(lat0, j, z1 - z0);
    OddLatRecovered(lat1, j, z1 - z0);
  }

  /** Decoding undoes encoding: two frames of nearby positions never read as bad data;
      they are held back exactly when their encoded latitudes lie in different longitude
      zones; otherwise the chosen frame's position comes back, to the bin. */
  lemma EncodedPositionRecovered(lat0: real, lon0: real, lat1: real, lon1: real, fflag: bool)
    requires -90.0 <= lat0 <= 90.0 && -90.0 <= lat1 <= 90.0
    requires -LAT_TOLERANCE < lat0 - lat1 < LAT_TOLERANCE
    requires var n := CprNL(EncodedLat(lat0, false)); n >= 2 ==> LonClose(lon0, lon1, n)
    ensures
      var fix := DecodeEncoded(lat0, lon0, lat1, lon1, fflag);
      var lat, lon := if fflag then lat1 else lat0, if fflag then lon1 else lon0;
      && !fix.BadData?
      && (fix.ZoneCrossed? <==> CprNL(EncodedLat(lat0, false)) != CprNL(EncodedLat(lat1, true)))
      && (fix.Position? ==> fix.lat == EncodedLat(lat, fflag) && -180.0 <= fix.lon < 180.0)
      && (fix.Position? ==> SameMeridian(fix.lon, EncodedLon(lat, lon, fflag)))
  {
    hide LatIndex, LatBin, Transmitted, South, FrameLat, LonIndex, FrameLon, Wrapped, CprNL, LonClose, Bin,
        BinPosition, InDegrees;
    LatsRecovered(lat0, lat1);
    var l0, l1 := EncodedLat(lat0, false), EncodedLat(lat1, true);
    if CprNL(l0) == CprNL(l1) {
      var b0, b1 := LonBin(lat0, lon0, false), LonBin(lat1, lon1, true);
      var rlat := if fflag then l1 else l0;
      var k := FrameLonRecovered(rlat, fflag, lon0, lon1, b0, b1);
      var i := WrappedIsTurned(FrameLon(rlat, fflag, Transmitted(b0), Transmitted(b1)));
      TurnedTwice(InDegrees(BinPosition(if fflag then b1 else b0), CprN(rlat, fflag)), k, i);
    }
  }

  lemma BinShifted(u: real, z: int)
    ensures Bin(u + (z as real)) == Bin(u) + z * BINS
  {
  }

  lemma TurnInZones(lon: real, k: int, zones: int)
    ensures InZones(Turned(lon, k), zones) == InZones(lon, zones) + ((zones * k) as real)
  {
    Distribute(zones as real, lon, 360.0 * (k as real));
    assert ((zones * k) as real) == (zones as real) * (k as real);
    assert (zones as real) * (360.0 * (k as real)) == 360.0 * ((zones as real) * (k as real));
  }

  // Whole turns move a longitude bin by whole zones, which are not transmitted.
  lemma TurnNotTransmitted(lon: real, k: int, zones: int)
    ensures Transmitted(Bin(InZones(Turned(lon, k), zones))) == Transmitted(Bin(InZones(lon, zones)))
  {
    hide Bin, InZones, Turned;
    TurnInZones(lon, k, zones);
    BinShifted(InZones(lon, zones), zones * k);
    var b := Bin(InZones(lon, zones));
    ModOfMultiple(b + zones * k * BINS, BINS, b / BINS + zones * k, b % BINS);
  }

  lemma ByWidth(x: real, zones: int)
    requires zones >= 1
    ensures InDegrees(x, zones) == Times(ZoneWidth(zones), x)
  {
  }

  lemma BackInDegrees(degrees: real, zones: int)
    requires zones >= 1
    ensures Times(ZoneWidth(zones), InZones(degrees, zones)) == degrees
  {
    var z := zones as real;
    assert 360.0 / z * (degrees * z / 360.0) == 360.0 / z * z * degrees / 360.0;
  }

  lemma TimesWithin(d: real, e: real, bound: real)
    requires d > 0.0 && -bound <= e <= bound
    ensures Abs(Times(d, e)) <= Times(d, bound)
  {
    Scale(d, e, bound);
    Scale(d, -bound, e);
  }

  lemma EncodedNear(degrees: real, zones: int)
    requires zones >= 1
    ensures Abs(InDegrees(BinPosition(Bin(InZones(degrees, zones))), zones) - degrees) <= HalfBin(zones)
  {
    hide Bin, BinPosition, InZones, InDegrees, Times, ZoneWidth;
    var u, p := InZones(degrees, zones), BinPosition(Bin(InZones(degrees, zones)));
    var d, e := ZoneWidth(zones), p - u;
    BinNear(u);
    ByWidth(p, zones);
    BackInDegrees(degrees, zones);
    TimesSum(d, u, e);
    assert u + e == p;
    TimesWithin(d, e, 0.5 / TWO17);
  }

  ghost predicate NearMeridian(a: real, b: real, bound: real) {
    exists k: int :: Abs(a - Turned(b, k)) <= bound
  }

  /** The same in terms of the encoded positions themselves: the decoder's answer is
      within half a bin of the position of the frame that fflag chooses, its longitude
      modulo 360, even when the two positions lie on both sides of the date line. */
  lemma AirborneRoundTrip(lat0: real, lon0: real, lat1: real, lon1: real, turn: int, fflag: bool)
    requires -90.0 <= lat0 <= 90.0 && -90.0 <= lat1 <= 90.0
    requires -LAT_TOLERANCE < lat0 - lat1 < LAT_TOLERANCE
    requires var n := CprNL(EncodedLat(lat0, false)); n >= 2 ==> LonClose(lon0, Turned(lon1, turn), n)
    ensures
      var fix := DecodeEncoded(lat0, lon0, lat1, lon1, fflag);
      var lat, lon := if fflag then lat1 else lat0, if fflag then lon1 else lon0;
      && !fix.BadData?
      && (fix.ZoneCrossed? <==> CprNL(EncodedLat(lat0, false)) != CprNL(EncodedLat(lat1, true)))
      && (fix.Position? ==> Abs(fix.lat - lat) <= HalfBin(LatZones(fflag)) && -180.0 <= fix.lon < 180.0)
      && (fix.Position? ==> NearMeridian(fix.lon, lon, HalfBin(CprN(fix.lat, fflag))))
  {
    hide Bin, BinPosition, Transmitted, InZones, InDegrees, CprNL, LonClose, DecodeCPRairborne, HalfBin;
    var shifted := Turned(lon1, turn);
    TurnNotTransmitted(lon1, turn, CprN(EncodedLat(lat1, true), true));
    EncodedPositionRecovered(lat0, lon0, lat1, shifted, fflag);
    var lat, lon := if fflag then lat1 else lat0, if fflag then shifted else lon0;
    EncodedNear(lat, LatZones(fflag));
    var fix := DecodeEncoded(lat0, lon0, lat1, lon1, fflag);
    if fix.Position? {
      var n := CprN(fix.lat, fflag);
      EncodedNear(lon, n);
      var k :| fix.lon == Turned(EncodedLon(lat, lon, fflag), k);
      var i := if fflag then turn else 0;
      TurnedTwice(if fflag then lon1 else lon0, i, k);
      assert Abs(fix.lon - Turned(lon, k)) <= HalfBin(n);
    }
  }
}
