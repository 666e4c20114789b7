/** The projection of a coordinate onto the tile grid of a zoom level
    (converter/src/mapper/math.rs), following the "Slippy map tilenames"
    scheme of the OpenStreetMap wiki. */
module MapperMath {
  import opened RustPrim
  import opened ReaderData
  import opened MapperData

  /** `core::f64::consts::PI` */
  const PI: real := 3.141592653589793

  /** The latitude transform `asinh(tan(lat * PI / 180))` of a latitude in
      degrees, left abstract. */
  type Mercator = real -> real

  /** `to_web_mercator`: longitude unchanged, latitude transformed. */
  function ToWebMercator(merc: Mercator, coord: Coord): (real, real) {
    (coord.lon, merc(coord.lat))
  }

  /** `x.floor() as u32` */
  function FloorAsU32(v: real): u32 {
    RealAsU32(v.Floor as real)
  }

  /** `(x.fract() * tile_res as f64) as u32` */
  function OffsetAsU32(v: real, tileRes: u32): u32 {
    RealAsU32(Fract(v) * tileRes as real)
  }

  /** The column coordinate in tile units: the longitude onto the unit
      interval, `0.5 + lon / 360`, scaled by `n = 2^zoom`. */
  function GridX(lon: real, zoom: nat): real {
    (0.5 + lon / 360.0) * Pow2(zoom) as real
  }

  /** The row coordinate in tile units for the transformed latitude `m`:
      `(0.5 - m / (2 * PI)) * 2^zoom`. */
  function GridY(m: real, zoom: nat): real {
    (0.5 - m / (2.0 * PI)) * Pow2(zoom) as real
  }

  /** `coord_to_tile`: project, map onto the unit square scaled by
      `2^zoom`, then split each axis into tile index and pixel offset.
      `2u32.pow(zoom)` panics from zoom 32 on, hence the precondition. */
  function CoordToTile(merc: Mercator, coord: Coord, zoom: u8, tileRes: u32): GlobalLocation
    requires zoom < 32
  {
    var p := ToWebMercator(merc, coord);
    var x := GridX(p.0, zoom);
    var y := GridY(p.1, zoom);
    GlobalLocation(FloorAsU32(x), FloorAsU32(y), OffsetAsU32(x, tileRes), OffsetAsU32(y, tileRes))
  }

  // Facts about products. Each product is passed in as a named value, which
  // keeps the solver's reasoning at the call sites linear.

  lemma ScaleMonotone(a: real, b: real, n: real, x: real, y: real)
    requires a <= b && n >= 0.0 && x == a * n && y == b * n
    ensures x <= y
  {
  }

  lemma FractionScaled(f: real, n: real, x: real)
    requires 0.0 <= f < 1.0 && n > 0.0 && x == f * n
    ensures 0.0 <= x < n
  {
  }

  lemma AtMostOneScaled(u: real, n: real, x: real)
    requires u <= 1.0 && n >= 0.0 && x == u * n
    ensures x <= n
  {
  }

  lemma NegativeScaled(u: real, n: real, x: real)
    requires u < 0.0 && n >= 1.0 && x == u * n
    ensures x < 0.0
  {
  }

  lemma NonPositiveScaled(f: real, n: real, x: real)
    requires f <= 0.0 && n >= 0.0 && x == f * n
    ensures x <= 0.0
  {
  }

  lemma SplitScaled(t: int, f: real, n: int, w: real, x: real)
    requires w == (t as real + f) * n as real && x == f * n as real
    ensures w == (t * n) as real + x
  {
  }

  lemma RealAsU32Monotone(a: real, b: real)
    requires a <= b
    ensures RealAsU32(a) <= RealAsU32(b)
  {
  }

  lemma FloorAsU32Exact(v: real)
    requires 0.0 <= v < U32_MAX as real + 1.0
    ensures FloorAsU32(v) == v.Floor
  {
    assert 0.0 <= v.Floor as real <= v;
  }

  lemma FloorMonotone(a: real, b: real)
    requires a <= b
    ensures a.Floor <= b.Floor
  {
    assert a.Floor as real <= a;
    assert b < b.Floor as real + 1.0;
  }

  lemma FloorAsU32Monotone(a: real, b: real)
    requires a <= b
    ensures FloorAsU32(a) <= FloorAsU32(b)
  {
    FloorMonotone(a, b);
    RealAsU32Monotone(a.Floor as real, b.Floor as real);
  }

  /** The offset of a fraction `f` scaled to `x = f * tile_res` lies below
      the resolution, within one pixel of `x`. */
  lemma OffsetOfFraction(f: real, tileRes: u32, x: real)
    requires 0.0 <= f < 1.0 && tileRes > 0 && x == f * tileRes as real
    ensures RealAsU32(x) < tileRes
    ensures RealAsU32(x) as real <= x < RealAsU32(x) as real + 1.0
  {
    FractionScaled(f, tileRes as real, x);
    assert RealAsU32(x) as real <= x;
  }

  /** For a non-negative coordinate below `2^32` the split is exact: the tile
      is the floor, the offset is below the resolution, and tile and offset
      together recover the coordinate within one pixel. */
  lemma AxisSplit(v: real, tileRes: u32)
    requires 0.0 <= v < U32_MAX as real + 1.0 && tileRes > 0
    ensures FloorAsU32(v) == v.Floor
    ensures OffsetAsU32(v, tileRes) < tileRes
    ensures var t, p := FloorAsU32(v), OffsetAsU32(v, tileRes);
      (t * tileRes + p) as real <= v * tileRes as real < (t * tileRes + p + 1) as real
  {
    FloorAsU32Exact(v);
    var t := v.Floor;
    var f := Fract(v);
    assert v == t as real + f;
    var x := f * tileRes as real;
    OffsetOfFraction(f, tileRes, x);
    SplitScaled(t, f, tileRes, v * tileRes as real, x);
  }

  /** A negative coordinate saturates both tile and offset to 0. */
  lemma AxisNegative(v: real, tileRes: u32)
    requires v < 0.0
    ensures FloorAsU32(v) == 0 && OffsetAsU32(v, tileRes) == 0
  {
    var f := Fract(v);
    NonPositiveScaled(f, tileRes as real, f * tileRes as real);
  }

  lemma GridXInGrid(lon: real, zoom: nat)
    requires -180.0 <= lon < 180.0
    ensures 0.0 <= GridX(lon, zoom) < Pow2(zoom) as real
  {
    FractionScaled(0.5 + lon / 360.0, Pow2(zoom) as real, GridX(lon, zoom));
  }

  lemma GridXBelow32(lon: real, zoom: nat)
    requires zoom < 32 && -180.0 <= lon < 180.0
    ensures 0.0 <= GridX(lon, zoom) < U32_MAX as real + 1.0
  {
    Pow2Below32(zoom);
    GridXInGrid(lon, zoom);
  }

  lemma GridXAtMostGrid(lon: real, zoom: nat)
    requires lon <= 180.0
    ensures GridX(lon, zoom) <= Pow2(zoom) as real
  {
    AtMostOneScaled(0.5 + lon / 360.0, Pow2(zoom) as real, GridX(lon, zoom));
  }

  /** A longitude in [-180, 180) lands in a column of the grid. */
  lemma TileXInGrid(merc: Mercator, coord: Coord, zoom: u8, tileRes: u32)
    requires zoom < 32 && -180.0 <= coord.lon < 180.0
    ensures CoordToTile(merc, coord, zoom, tileRes).tileX < Pow2(zoom)
  {
    Pow2Below32(zoom);
    GridXInGrid(coord.lon, zoom);
    var x := GridX(coord.lon, zoom);
    FloorAsU32Exact(x);
    assert x.Floor as real <= x;
  }

  /** A longitude up to 180 never yields a column beyond `2^zoom`. */
  lemma TileXAtMostGrid(merc: Mercator, coord: Coord, zoom: u8, tileRes: u32)
    requires zoom < 32 && coord.lon <= 180.0
    ensures CoordToTile(merc, coord, zoom, tileRes).tileX <= Pow2(zoom)
  {
    Pow2Below32(zoom);
    var n := Pow2(zoom) as real;
    GridXAtMostGrid(coord.lon, zoom);
    FloorAsU32Monotone(GridX(coord.lon, zoom), n);
    assert n.Floor == Pow2(zoom);
  }

  /** Further east never gives a smaller column. */
  lemma TileXMonotone(merc: Mercator, a: Coord, b: Coord, zoom: u8, tileRes: u32)
    requires zoom < 32 && a.lon <= b.lon
    ensures CoordToTile(merc, a, zoom, tileRes).tileX <= CoordToTile(merc, b, zoom, tileRes).tileX
  {
    ScaleMonotone(0.5 + a.lon / 360.0, 0.5 + b.lon / 360.0, Pow2(zoom) as real, GridX(a.lon, zoom), GridX(b.lon, zoom));
    FloorAsU32Monotone(GridX(a.lon, zoom), GridX(b.lon, zoom));
  }

  /** A larger transformed latitude never gives a larger row. */
  lemma TileYAntitone(merc: Mercator, a: Coord, b: Coord, zoom: u8, tileRes: u32)
    requires zoom < 32 && merc(a.lat) <= merc(b.lat)
    ensures CoordToTile(merc, a, zoom, tileRes).tileY >= CoordToTile(merc, b, zoom, tileRes).tileY
  {
    ScaleMonotone(0.5 - merc(b.lat) / (2.0 * PI), 0.5 - merc(a.lat) / (2.0 * PI), Pow2(zoom) as real,
      GridY(merc(b.lat), zoom), GridY(merc(a.lat), zoom));
    FloorAsU32Monotone(GridY(merc(b.lat), zoom), GridY(merc(a.lat), zoom));
  }

  /** `asinh(tan(lat))` is increasing between the poles. */
  ghost predicate IncreasingBetweenPoles(merc: Mercator) {
    forall a, b :: -90.0 < a <= b < 90.0 ==> merc(a) <= merc(b)
  }

  /** Further north never gives a larger row. */
  lemma NorthIsUp(merc: Mercator, a: Coord, b: Coord, zoom: u8, tileRes: u32)
    requires zoom < 32 && IncreasingBetweenPoles(merc)
    requires -90.0 < a.lat <= b.lat < 90.0
    ensures CoordToTile(merc, a, zoom, tileRes).tileY >= CoordToTile(merc, b, zoom, tileRes).tileY
  {
    TileYAntitone(merc, a, b, zoom, tileRes);
  }

  /** The column and its pixel offset place the longitude within one pixel
      of its exact position `GridX * tile_res`. */
  lemma RoundTripX(merc: Mercator, coord: Coord, zoom: u8, tileRes: u32)
    requires zoom < 32 && tileRes > 0 && -180.0 <= coord.lon < 180.0
    ensures var g := CoordToTile(merc, coord, zoom, tileRes);
      && g.x < tileRes
      && (g.tileX * tileRes + g.x) as real <= GridX(coord.lon, zoom) * tileRes as real
      && GridX(coord.lon, zoom) * tileRes as real < (g.tileX * tileRes + g.x + 1) as real
  {
    var v := GridX(coord.lon, zoom);
    GridXBelow32(coord.lon, zoom);
    AxisSplit(v, tileRes);
  }

  /** The same for the row, wherever the transformed latitude puts it on the grid. */
  lemma RoundTripY(merc: Mercator, coord: Coord, zoom: u8, tileRes: u32)
    requires zoom < 32 && tileRes > 0
    requires 0.0 <= GridY(merc(coord.lat), zoom) < U32_MAX as real + 1.0
    ensures var g := CoordToTile(merc, coord, zoom, tileRes);
      && g.y < tileRes
      && (g.tileY * tileRes + g.y) as real <= GridY(merc(coord.lat), zoom) * tileRes as real
      && GridY(merc(coord.lat), zoom) * tileRes as real < (g.tileY * tileRes + g.y + 1) as real
  {
    AxisSplit(GridY(merc(coord.lat), zoom), tileRes);
  }

  /** West of the antimeridian (longitude below -180) column and offset
      saturate to 0. */
  lemma WestSaturates(merc: Mercator, coord: Coord, zoom: u8, tileRes: u32)
    requires zoom < 32 && coord.lon < -180.0
    ensures CoordToTile(merc, coord, zoom, tileRes).tileX == 0
    ensures CoordToTile(merc, coord, zoom, tileRes).x == 0
  {
    NegativeScaled(0.5 + coord.lon / 360.0, Pow2(zoom) as real, GridX(coord.lon, zoom));
    AxisNegative(GridX(coord.lon, zoom), tileRes);
  }
}
