/** decodeCPRrelative of cpr.c: one frame and a reference position. */
module CprRelative {
  import opened LongitudeZones
  import opened Cpr

  // -------------------------------------------------------------------- decoder

  function LatWidth(fflag: bool, surface: bool): (d: real)
    ensures d > 0.0
  {
    (if surface then 90.0 else 360.0) / (if fflag then 59.0 else 60.0)
  }

  function CellIndex(reference: real, width: real, fraction: real): int
    requires width > 0.0
  {
    Floor(reference / width) + Floor(0.5 + CprModDouble(reference, width) / width - fraction)
  }

  function InCell(width: real, index: int, fraction: real): real {
    Times(width, (index as real) + fraction)
  }

  function DecodeCPRrelative(reflat: real, reflon: real, cprlat: int, cprlon: int, fflag: bool, surface: bool): Fix {
    var latFraction, lonFraction := (cprlat as real) / TWO17, (cprlon as real) / TWO17;
    var latWidth := LatWidth(fflag, surface);
    var j := CellIndex(reflat, latWidth, latFraction);
    var rlat := South(InCell(latWidth, j, latFraction));
    if rlat < -90.0 || rlat > 90.0 then BadData
    else if Abs(rlat - reflat) > latWidth / 2.0 then BadData
    else
      var lonWidth := CprDlon(rlat, fflag, surface);
      var m := CellIndex(reflon, lonWidth, lonFraction);
      var unwrapped := InCell(lonWidth, m, lonFraction);
      var rlon := if unwrapped > 180.0 then unwrapped - 360.0 else unwrapped;
      if Abs(rlon - reflon) > lonWidth / 2.0 then BadData else Position(rlat, rlon)
  }

  // ------------------------------------------------------------- the nearest cell

  /** cprModDouble is the distance from the cell's edge, on both sides of zero. */
  lemma ModDoubleIsOffset(a: real, b: real)
    requires b > 0.0
    ensures CprModDouble(a, b) == a - Times(b, Floor(a / b) as real)
    ensures 0.0 <= CprModDouble(a, b) < b
  {
    hide Times, Floor;
    var q := a / b;
    Quotient(a, b);
    FloorBelow(q);
    Remainder(a, b, q, Floor(q) as real);
    if q < 0.0 {
      TruncatesUp(q);
      var t := -Floor(-q) as real;
      if t != q {
        TimesSum(b, Floor(q) as real, 1.0);
        TimesOne(b);
        TimesStrict(b, q, t);
      }
    }
  }

  lemma FloorBelow(q: real)
    ensures Floor(q) as real <= q < Floor(q) as real + 1.0
  {
  }

  lemma TruncatesUp(q: real)
    ensures -Floor(-q) == if Floor(q) as real == q then Floor(q) else Floor(q) + 1
    ensures q <= -Floor(-q) as real
  {
  }

  lemma Quotient(a: real, b: real)
    requires b > 0.0
    ensures Times(b, a / b) == a
  {
  }

  lemma TimesOne(b: real)
    ensures Times(b, 1.0) == b
    ensures Times(b, 0.5) == b / 2.0
  {
  }

  lemma TimesStrict(b: real, x: real, y: real)
    requires b > 0.0 && x < y
    ensures Times(b, x) < Times(b, y)
  {
  }

  lemma Remainder(a: real, b: real, q: real, f: real)
    requires b > 0.0 && a == Times(b, q) && f <= q < f + 1.0
    ensures 0.0 <= a - Times(b, f) < b
  {
    hide Times;
    TimesSum(b, f, 1.0);
    TimesOne(b);
    TimesStrict(b, q, f + 1.0);
    if f < q {
      TimesStrict(b, f, q);
    }
  }

  /** The index chosen is that of the cell position nearest to the reference. */
  lemma NearestCell(reference: real, width: real, fraction: real)
    requires width > 0.0
    ensures -width / 2.0 < InCell(width, CellIndex(reference, width, fraction), fraction) - reference <= width / 2.0
  {
    hide Times, CprModDouble;
    ModDoubleIsOffset(reference, width);
    var offset := CprModDouble(reference, width);
    var q := Floor(reference / width);
    var g := offset / width;
    Quotient(offset, width);
    var k := Floor(0.5 + g - fraction);
    var e := (k as real) + fraction - g;
    TimesSum(width, (q as real), g);
    TimesSum(width, (q as real) + g, e);
    assert ((q + k) as real) + fraction == (q as real) + g + e;
    HalfAway(width, e);
  }

  lemma HalfAway(width: real, e: real)
    requires width > 0.0 && -0.5 < e <= 0.5
    ensures -width / 2.0 < Times(width, e) <= width / 2.0
  {
    hide Times;
    TimesOne(width);
    TimesStrict(width, -0.5, e);
    TimesSum(width, 0.5, -0.5);
    TimesZero(width);
    if e < 0.5 {
      TimesStrict(width, e, 0.5);
    }
  }

  lemma TimesZero(b: real)
    ensures Times(b, 0.0) == 0.0
  {
  }

  /** No other position with the same fraction is strictly within half a cell. */
  lemma NearestIsUnique(reference: real, width: real, fraction: real, index: int)
    requires width > 0.0 && -width / 2.0 < InCell(width, index, fraction) - reference < width / 2.0
    ensures CellIndex(reference, width, fraction) == index
  {
    hide CellIndex, Times;
    var other := CellIndex(reference, width, fraction);
    NearestCell(reference, width, fraction);
    var p := (index as real) + fraction;
    TimesOne(width);
    if other > index {
      TimesSum(width, p, 1.0);
      TimesMonotone(width, p + 1.0, (other as real) + fraction);
    } else if other < index {
      TimesSum(width, p - 1.0, 1.0);
      TimesMonotone(width, (other as real) + fraction, p - 1.0);
    }
  }

  lemma TimesMonotone(b: real, x: real, y: real)
    requires b > 0.0 && x <= y
    ensures Times(b, x) <= Times(b, y)
  {
    Scale(b, x, y);
  }

  // -------------------------------------------------------------- what is decoded

  function Nearest(reference: real, width: real, field: int): real
    requires width > 0.0
  {
    var fraction := (field as real) / TWO17;
    InCell(width, CellIndex(reference, width, fraction), fraction)
  }

  lemma WidthBounds(lat: real, fflag: bool, surface: bool)
    ensures LatWidth(fflag, surface) <= 360.0 / 59.0
    ensures CprDlon(lat, fflag, surface) <= 360.0
    ensures CprDlon(lat, fflag, surface) == 360.0 <==> !surface && CprN(lat, fflag) == 1
  {
    hide CprN;
    var n := CprN(lat, fflag);
    if n > 1 {
      OverTwo(n);
    }
  }

  lemma OverTwo(n: int)
    requires n >= 2
    ensures 0.0 < 360.0 / (n as real) <= 180.0 && 0.0 < 90.0 / (n as real) <= 90.0
  {
  }

  // The answer is nearest, so a half-cell check can only fail because of a wrap.
  ghost predicate LonKept(reflon: real, lon: real, width: real) {
    lon <= 180.0 || (width == 360.0 && lon == reflon + 180.0)
  }

  /** The half-cell checks reject only after a 360 degree wrap: the latitude is decoded
      exactly when the nearest one lies between the poles, and then the longitude exactly
      when the nearest one needs no wrap (or, with a single zone, is exactly half a turn
      away). */
  lemma RelativeExactly(reflat: real, reflon: real, cprlat: int, cprlon: int, fflag: bool, surface: bool)
    ensures
      var lat := Nearest(reflat, LatWidth(fflag, surface), cprlat);
      var width := CprDlon(lat, fflag, surface);
      var lon := Nearest(reflon, width, cprlon);
      DecodeCPRrelative(reflat, reflon, cprlat, cprlon, fflag, surface) ==
        if -90.0 <= lat <= 90.0 && LonKept(reflon, lon, width)
        then Position(lat, if lon > 180.0 then lon - 360.0 else lon)
        else BadData
  {
    hide CellIndex, InCell, CprDlon, LatWidth;
    var f, g := (cprlat as real) / TWO17, (cprlon as real) / TWO17;
    var latWidth := LatWidth(fflag, surface);
    var lat := Nearest(reflat, latWidth, cprlat);
    NearestCell(reflat, latWidth, f);
    WidthBounds(lat, fflag, surface);
    WidthBounds(South(lat), fflag, surface);
    NearestCell(reflon, CprDlon(lat, fflag, surface), g);
  }

  /** A position whose fields these are, strictly within half a cell of the reference, is
      the one that is decoded. */
  lemma RelativeFinds(reflat: real, reflon: real, cprlat: int, cprlon: int, fflag: bool, surface: bool,
                      lat: real, lon: real, j: int, m: int)
    requires -90.0 <= lat <= 90.0 && lon <= 180.0
    requires lat == InCell(LatWidth(fflag, surface), j, (cprlat as real) / TWO17)
    requires lon == InCell(CprDlon(lat, fflag, surface), m, (cprlon as real) / TWO17)
    requires Abs(lat - reflat) < LatWidth(fflag, surface) / 2.0
    requires Abs(lon - reflon) < CprDlon(lat, fflag, surface) / 2.0
    ensures DecodeCPRrelative(reflat, reflon, cprlat, cprlon, fflag, surface) == Position(lat, lon)
  {
    hide CellIndex, InCell, CprDlon, LatWidth, DecodeCPRrelative;
    NearestIsUnique(reflat, LatWidth(fflag, surface), (cprlat as real) / TWO17, j);
    NearestIsUnique(reflon, CprDlon(lat, fflag, surface), (cprlon as real) / TWO17, m);
    RelativeExactly(reflat, reflon, cprlat, cprlon, fflag, surface);
  }

  // ---------------------------------------------------- agreement with the global decoder

  // The global decoder's answer has the chosen frame's fields in both coordinates.
  lemma AirborneInCells(evenCprlat: int, evenCprlon: int, oddCprlat: int, oddCprlon: int, fflag: bool)
      returns (j: int, m: int)
    ensures var fix := DecodeCPRairborne(evenCprlat, evenCprlon, oddCprlat, oddCprlon, fflag);
      fix.Position? ==>
        && fix.lat == InCell(LatWidth(fflag, false), j, ((if fflag then oddCprlat else evenCprlat) as real) / TWO17)
        && fix.lon ==
            InCell(CprDlon(fix.lat, fflag, false), m, ((if fflag then oddCprlon else evenCprlon) as real) / TWO17)
        && -90.0 <= fix.lat <= 90.0 && -180.0 <= fix.lon < 180.0
  {
    hide LatIndex, LonIndex, CprModInt, CprN, CprNL, Times;
    var fix := DecodeCPRairborne(evenCprlat, evenCprlon, oddCprlat, oddCprlon, fflag);
    j, m := 0, 0;
    if fix.Position? {
      var zones := if fflag then 59 else 60;
      var i := LatIndex(evenCprlat, oddCprlat);
      j := LatCell(i, if fflag then oddCprlat else evenCprlat, fflag);
      m := LonCell(fix.lat, fflag, evenCprlon, oddCprlon);
    }
  }

  lemma LatCell(i: int, field: int, fflag: bool) returns (j: int)
    ensures South(FrameLat(i, field, if fflag then 59 else 60)) ==
      InCell(LatWidth(fflag, false), j, (field as real) / TWO17)
  {
    hide CprModInt;
    var zones := if fflag then 59 else 60;
    var index := CprModInt(i, zones);
    j := if FrameLat(i, field, zones) >= 270.0 then index - zones else index;
  }

  lemma FrameLonInCell(lat: real, fflag: bool, evenCprlon: int, oddCprlon: int)
    ensures FrameLon(lat, fflag, evenCprlon, oddCprlon) ==
      InCell(CprDlon(lat, fflag, false), CprModInt(LonIndex(evenCprlon, oddCprlon, CprNL(lat)), CprN(lat, fflag)),
        ((if fflag then oddCprlon else evenCprlon) as real) / TWO17)
  {
    hide LonIndex, CprModInt, CprNL, CprDlon;
  }

  lemma LonCell(lat: real, fflag: bool, evenCprlon: int, oddCprlon: int) returns (m: int)
    ensures Wrapped(FrameLon(lat, fflag, evenCprlon, oddCprlon)) ==
      InCell(CprDlon(lat, fflag, false), m, ((if fflag then oddCprlon else evenCprlon) as real) / TWO17)
  {
    hide LonIndex, CprModInt, CprNL, Wrapped, Times, CprN, FrameLon;
    var n := CprN(lat, fflag);
    var width := CprDlon(lat, fflag, false);
    var fraction := ((if fflag then oddCprlon else evenCprlon) as real) / TWO17;
    var index := CprModInt(LonIndex(evenCprlon, oddCprlon, CprNL(lat)), n);
    FrameLonInCell(lat, fflag, evenCprlon, oddCprlon);
    var k := WrappedIsTurned(FrameLon(lat, fflag, evenCprlon, oddCprlon));
    m := index + k * n;
    TimesSum(width, (index as real) + fraction, (k as real) * (n as real));
    WidthTimesZones(n, k);
    assert (m as real) + fraction == (index as real) + fraction + (k as real) * (n as real);
  }

  lemma WidthTimesZones(n: int, k: int)
    requires n >= 1
    ensures Times(360.0 / (n as real), (k as real) * (n as real)) == 360.0 * (k as real)
  {
    var d := 360.0 / (n as real);
    assert d * ((k as real) * (n as real)) == (d * (n as real)) * (k as real);
  }

  /** A receiver that knows where it is needs only one of the two frames: where the global
      decoder finds a position strictly within half a cell of the reference, the relative
      decoder finds the same one from the newer frame alone. */
  lemma RelativeAgreesWithGlobal(reflat: real, reflon: real, evenCprlat: int, evenCprlon: int,
                                 oddCprlat: int, oddCprlon: int, fflag: bool)
    ensures
      var global := DecodeCPRairborne(evenCprlat, evenCprlon, oddCprlat, oddCprlon, fflag);
      var cprlat, cprlon := if fflag then oddCprlat else evenCprlat, if fflag then oddCprlon else evenCprlon;
      (&& global.Position?
       && Abs(global.lat - reflat) < LatWidth(fflag, false) / 2.0
       && Abs(global.lon - reflon) < CprDlon(global.lat, fflag, false) / 2.0) ==>
        DecodeCPRrelative(reflat, reflon, cprlat, cprlon, fflag, false) == global
  {
    hide DecodeCPRairborne, DecodeCPRrelative, LatWidth, CprDlon, InCell;
    var global := DecodeCPRairborne(evenCprlat, evenCprlon, oddCprlat, oddCprlon, fflag);
    var j, m := AirborneInCells(evenCprlat, evenCprlon, oddCprlat, oddCprlon, fflag);
    if global.Position? && Abs(global.lat - reflat) < LatWidth(fflag, false) / 2.0 &&
       Abs(global.lon - reflon) < CprDlon(global.lat, fflag, false) / 2.0 {
      RelativeFinds(reflat, reflon, if fflag then oddCprlat else evenCprlat, if fflag then oddCprlon else evenCprlon,
        fflag, false, global.lat, global.lon, j, m);
    }
  }
}
