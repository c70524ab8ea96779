/** globe_index of globe_index.c: the index of the tile that a position belongs to. */
module GlobeSquares {

  const GLOBE_INDEX_GRID: nat := 3
  const GLOBE_LAT_MULT: nat := 121
  const GLOBE_MIN_INDEX: nat := 1000
  const GLOBE_MAX_INDEX: nat := 8260

  datatype Tile = Tile(south: int, west: int, north: int, east: int)

  // The conversion to int truncates.
  function Truncated(x: real): int {
    if x >= 0.0 then x.Floor else -((-x).Floor)
  }

  // The south-west corner of the square around a position.
  function SouthOf(lat: real): int {
    GLOBE_INDEX_GRID * Truncated((lat + 90.0) / 3.0) - 90
  }

  function WestOf(lon: real): int {
    GLOBE_INDEX_GRID * Truncated((lon + 180.0) / 3.0) - 180
  }

  predicate OnGlobe(lat: real, lon: real) {
    -90.0 <= lat <= 90.0 && -180.0 <= lon <= 180.0
  }

  // A special tile, which may span the antimeridian.
  predicate Covers(tile: Tile, south: int, west: int) {
    tile.south <= south < tile.north &&
    if tile.west < tile.east then tile.west <= west < tile.east
    else tile.west > tile.east && (west >= tile.west || west < tile.east)
  }

  // How far it is eastwards from one meridian to another.
  function Eastwards(from: int, to: int): int {
    if from <= to then to - from else to - from + 360
  }

  /** A tile reaches eastwards from its western side to its eastern one, over the antimeridian
      too. */
  lemma CoversAround(tile: Tile, south: int, west: int)
    requires -180 <= tile.west < 180 && -180 <= tile.east < 180 && -180 <= west < 180
    ensures Covers(tile, south, west) <==>
      tile.south <= south < tile.north && Eastwards(tile.west, west) < Eastwards(tile.west, tile.east)
  {
  }

  predicate LastTile(tile: Tile) {
    tile.south == 0 && tile.north == 0
  }

  // The list of special tiles ends with an empty one, and has room below the squares.
  predicate TileList(tiles: seq<Tile>) {
    0 < |tiles| <= GLOBE_MIN_INDEX && LastTile(tiles[|tiles| - 1]) &&
    forall i :: 0 <= i < |tiles| - 1 ==> !LastTile(tiles[i])
  }

  function Square(south: int, west: int): int {
    Quotient(south + 90) * GLOBE_LAT_MULT + Quotient(west + 180) + GLOBE_MIN_INDEX
  }

  // Integer division by the grid, towards zero.
  function Quotient(a: int): int {
    if a >= 0 then a / GLOBE_INDEX_GRID else -(-a / GLOBE_INDEX_GRID)
  }

  /** The first special tile around the position; otherwise its square, if that has a list. */
  method GlobeIndexOf(lat: real, lon: real, tiles: seq<Tile>) returns (res: int)
    requires TileList(tiles)
    ensures res <= GLOBE_MAX_INDEX && (OnGlobe(lat, lon) ==> 0 <= res)
    ensures Covered(tiles, lat, lon) ==>
              0 <= res < |tiles| - 1 && Covers(tiles[res], SouthOf(lat), WestOf(lon)) &&
              forall i :: 0 <= i < res ==> !Covers(tiles[i], SouthOf(lat), WestOf(lon))
    ensures !Covered(tiles, lat, lon) ==>
              res == if Square(SouthOf(lat), WestOf(lon)) > GLOBE_MAX_INDEX then 0
                  else Square(SouthOf(lat), WestOf(lon))
  {
    hide SouthOf, WestOf;
    var south, west := SouthOf(lat), WestOf(lon);
    var i := 0;
    while tiles[i].south != 0 || tiles[i].north != 0
      invariant 0 <= i < |tiles|
      invariant forall k :: 0 <= k < i ==> !Covers(tiles[k], south, west)
      decreases |tiles| - i
    {
      var tile := tiles[i];
      if south >= tile.south && south < tile.north {
        if tile.west < tile.east && west >= tile.west && west < tile.east {
          return i;
        }
        if tile.west > tile.east && (west >= tile.west || west < tile.east) {
          return i;
        }
      }
      i := i + 1;
    }
    if OnGlobe(lat, lon) {
      CornerOnGlobe(lat, lon);
    }
    res := Square(south, west);
    if res > GLOBE_MAX_INDEX {
      res := 0;
    }
  }

  predicate Covered(tiles: seq<Tile>, lat: real, lon: real) {
    exists i :: 0 <= i < |tiles| - 1 && Covers(tiles[i], SouthOf(lat), WestOf(lon))
  }

  // The square is counted by whole steps from the corner of the grid.
  lemma CornerOnGlobe(lat: real, lon: real)
    requires OnGlobe(lat, lon)
    ensures var i, j := Truncated((lat + 90.0) / 3.0), Truncated((lon + 180.0) / 3.0);
      && 0 <= i <= 60 && 0 <= j <= 120
      && (i == 60 <==> lat == 90.0) && (j == 0 <==> lon < -177.0)
      && Square(SouthOf(lat), WestOf(lon)) == i * GLOBE_LAT_MULT + j + GLOBE_MIN_INDEX
  {
    var x, y := (lat + 90.0) / 3.0, (lon + 180.0) / 3.0;
    assert 0.0 <= x <= 60.0 && 0.0 <= y <= 120.0;
    assert x.Floor as real <= x < x.Floor as real + 1.0;
    assert y.Floor as real <= y < y.Floor as real + 1.0;
  }

  /** A position lies in the square from its corner on, which is a whole number of steps of
      three degrees from the corner of the grid. */
  lemma CornerHolds(lat: real, lon: real)
    requires OnGlobe(lat, lon)
    ensures SouthOf(lat) as real <= lat < SouthOf(lat) as real + 3.0 && (SouthOf(lat) + 90) % 3 == 0
    ensures WestOf(lon) as real <= lon < WestOf(lon) as real + 3.0 && (WestOf(lon) + 180) % 3 == 0
  {
    var x, y := (lat + 90.0) / 3.0, (lon + 180.0) / 3.0;
    assert x.Floor as real <= x < x.Floor as real + 1.0;
    assert y.Floor as real <= y < y.Floor as real + 1.0;
    assert SouthOf(lat) == 3 * x.Floor - 90 && WestOf(lon) == 3 * y.Floor - 180;
  }

  /** Two positions have the same square exactly when they have the same corner. */
  lemma SquaresDiffer(lat0: real, lon0: real, lat1: real, lon1: real)
    requires OnGlobe(lat0, lon0) && OnGlobe(lat1, lon1)
    ensures Square(SouthOf(lat0), WestOf(lon0)) == Square(SouthOf(lat1), WestOf(lon1)) <==>
      SouthOf(lat0) == SouthOf(lat1) && WestOf(lon0) == WestOf(lon1)
  {
    hide Square, Truncated;
    CornerOnGlobe(lat0, lon0);
    CornerOnGlobe(lat1, lon1);
  }

  /** Only at the pole itself is there a square without a list: positions there go to the
      first special tile. */
  lemma OnlyThePole(lat: real, lon: real)
    requires OnGlobe(lat, lon)
    ensures Square(SouthOf(lat), WestOf(lon)) > GLOBE_MAX_INDEX <==> lat == 90.0 && lon >= -177.0
  {
    hide Square, Truncated;
    CornerOnGlobe(lat, lon);
  }
}
