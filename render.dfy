/** The integer part of the renderer (converter/src/render/mod.rs): the
    extent of the tile grid, the image size, and the pixel address of every
    road point. The image itself and the anti-aliased line drawing are not
    modelled; a drawing is the list of segments that would be drawn. */
module Render {
  import opened RustPrim
  import opened Configuration
  import opened MapperData

  // ---------------------------------------------------------------------
  // Extent of the tiles
  // ---------------------------------------------------------------------

  datatype TileExtent = TileExtent(xMin: u32, yMin: u32, xMax: u32, yMax: u32)

  /** The accumulators before the first tile. */
  const INITIAL_EXTENT := TileExtent(U32_MAX, U32_MAX, 0, 0)

  /** `e` is what the min/max fold over all tiles yields: every tile lies
      within it, each bound is attained by some tile, and with no tile it
      keeps its initial values. */
  ghost predicate IsExtentOf(e: TileExtent, tiles: map<u64, Tile>) {
    && (forall k | k in tiles ::
          e.xMin <= tiles[k].location.0 <= e.xMax && e.yMin <= tiles[k].location.1 <= e.yMax)
    && (tiles == map[] ==> e == INITIAL_EXTENT)
    && (tiles != map[] ==>
          && (exists k | k in tiles :: tiles[k].location.0 == e.xMin)
          && (exists k | k in tiles :: tiles[k].location.1 == e.yMin)
          && (exists k | k in tiles :: tiles[k].location.0 == e.xMax)
          && (exists k | k in tiles :: tiles[k].location.1 == e.yMax))
  }

  /** The fold's result does not depend on the order the hash map yields
      its tiles in: there is only one extent. */
  lemma ExtentUnique(e1: TileExtent, e2: TileExtent, tiles: map<u64, Tile>)
    requires IsExtentOf(e1, tiles) && IsExtentOf(e2, tiles)
    ensures e1 == e2
  {
    if tiles != map[] {
      var a :| a in tiles && tiles[a].location.0 == e1.xMin;
      var b :| b in tiles && tiles[b].location.0 == e2.xMin;
      var c :| c in tiles && tiles[c].location.1 == e1.yMin;
      var d :| d in tiles && tiles[d].location.1 == e2.yMin;
      var f :| f in tiles && tiles[f].location.0 == e1.xMax;
      var g :| g in tiles && tiles[g].location.0 == e2.xMax;
      var h :| h in tiles && tiles[h].location.1 == e1.yMax;
      var i :| i in tiles && tiles[i].location.1 == e2.yMax;
    }
  }

  function MinU32(a: u32, b: u32): u32 {
    if a <= b then a else b
  }

  function MaxU32(a: u32, b: u32): u32 {
    if a >= b then a else b
  }

  /** The loop over the tiles at the top of `render_result_to_folder`; it
      visits the keys in an unspecified order. */
  method TileExtentOf(tiles: map<u64, Tile>) returns (e: TileExtent)
    ensures IsExtentOf(e, tiles)
  {
    var tileXMin, tileYMin, tileXMax, tileYMax: u32 := U32_MAX, U32_MAX, 0, 0;
    var remaining := tiles.Keys;
    ghost var seen: set<u64> := {};
    ghost var wxMin, wyMin, wxMax, wyMax: u64 := 0, 0, 0, 0;
    while remaining != {}
      invariant remaining <= tiles.Keys && seen == tiles.Keys - remaining
      invariant forall k | k in seen ::
        tileXMin <= tiles[k].location.0 <= tileXMax && tileYMin <= tiles[k].location.1 <= tileYMax
      invariant seen == {} ==> tileXMin == U32_MAX && tileYMin == U32_MAX && tileXMax == 0 && tileYMax == 0
      invariant seen != {} ==>
        && wxMin in seen && tiles[wxMin].location.0 == tileXMin
        && wyMin in seen && tiles[wyMin].location.1 == tileYMin
        && wxMax in seen && tiles[wxMax].location.0 == tileXMax
        && wyMax in seen && tiles[wyMax].location.1 == tileYMax
      decreases remaining
    {
      var id :| id in remaining;
      var tile := tiles[id];
      if seen == {} || tile.location.0 < tileXMin { wxMin := id; }
      if seen == {} || tile.location.1 < tileYMin { wyMin := id; }
      if seen == {} || tile.location.0 > tileXMax { wxMax := id; }
      if seen == {} || tile.location.1 > tileYMax { wyMax := id; }
      tileXMin := MinU32(tileXMin, tile.location.0);
      tileYMin := MinU32(tileYMin, tile.location.1);
      tileXMax := MaxU32(tileXMax, tile.location.0);
      tileYMax := MaxU32(tileYMax, tile.location.1);
      remaining := remaining - {id};
      seen := seen + {id};
    }
    assert seen == tiles.Keys;
    e := TileExtent(tileXMin, tileYMin, tileXMax, tileYMax);
  }

  // ---------------------------------------------------------------------
  // Image size and pixel addresses
  // ---------------------------------------------------------------------

  /** `(max - min + 2) * tile_res` in `u32`; `None` where the debug build
      panics on underflow or overflow. */
  function ImageSide(lo: u32, hi: u32, tileRes: u32): Option<u32> {
    match CheckedSub(hi, lo)
    case None => None
    case Some(d) =>
      match CheckedAdd(d, 2)
      case None => None
      case Some(tiles) => CheckedMul(tiles, tileRes)
  }

  /** The side exists exactly when none of the three steps leaves `u32`,
      and is then the number of tiles plus two, times the resolution. */
  lemma ImageSideSpec(lo: u32, hi: u32, tileRes: u32)
    ensures ImageSide(lo, hi, tileRes).Some? <==>
      lo <= hi && hi - lo + 2 <= U32_MAX && (hi - lo + 2) * tileRes <= U32_MAX
    ensures ImageSide(lo, hi, tileRes).Some? ==> ImageSide(lo, hi, tileRes).value == (hi - lo + 2) * tileRes
  {
  }

  /** With no tile the initial accumulators underflow: no image. */
  lemma NoTilesNoImage(tileRes: u32)
    ensures ImageSide(INITIAL_EXTENT.xMin, INITIAL_EXTENT.xMax, tileRes) == None
    ensures ImageSide(INITIAL_EXTENT.yMin, INITIAL_EXTENT.yMax, tileRes) == None
  {
  }

  /** Width and height of the image for an extent. */
  function ImageSize(e: TileExtent, tileRes: u32): Option<(u32, u32)> {
    match (ImageSide(e.xMin, e.xMax, tileRes), ImageSide(e.yMin, e.yMax, tileRes))
    case (Some(w), Some(h)) => Some((w, h))
    case _ => None
  }

  /** One axis of a pixel address, `((tile - offset) * tile_res + within) as i32`;
      `None` where the debug build panics. */
  function PixelCoord(tile: u32, offset: u32, tileRes: u32, within: u32): Option<int> {
    match CheckedSub(tile, offset)
    case None => None
    case Some(d) =>
      match CheckedMul(d, tileRes)
      case None => None
      case Some(p) =>
        match CheckedAdd(p, within)
        case None => None
        case Some(s) => Some(U32AsI32(s))
  }

  /** The address exists exactly when the point is not before the origin
      and the unsigned address fits in `u32`; it is then that address
      reinterpreted as `i32`. */
  lemma PixelCoordSpec(tile: u32, offset: u32, tileRes: u32, within: u32)
    ensures PixelCoord(tile, offset, tileRes, within).Some? <==>
      offset <= tile && (tile - offset) * tileRes + within <= U32_MAX
    ensures PixelCoord(tile, offset, tileRes, within).Some? ==>
      PixelCoord(tile, offset, tileRes, within).value == U32AsI32((tile - offset) * tileRes + within)
  {
  }

  /** A point west of (or north of) the image origin cannot be addressed. */
  lemma PixelBeforeOrigin(tile: u32, offset: u32, tileRes: u32, within: u32)
    requires tile < offset
    ensures PixelCoord(tile, offset, tileRes, within) == None
  {
  }

  /** An address inside column `d < cols`, with offset below `res`, is
      below `cols * res`; the products are passed in named. */
  lemma AddressBelowSide(d: int, cols: int, res: int, within: int, u: int, full: int)
    requires 0 <= d < cols && 0 <= within < res && u == d * res + within && full == cols * res
    ensures u < full
  {
    MulSucc(d, res, res * d, res * (d + 1));
    MulMonotoneInt(d + 1, cols, res, res * (d + 1), res * cols);
  }

  /** A point in a tile column up to one past the last, with its offset
      inside the tile, lands inside an image of `(max - min + 2) * tile_res`
      columns; when the image is at most `2^31` wide the `i32` cast keeps
      the value. */
  lemma PixelWithinImage(tile: u32, offset: u32, maxTile: u32, tileRes: u32, within: u32, side: u32)
    requires offset <= tile <= maxTile + 1 && within < tileRes
    requires ImageSide(offset, maxTile, tileRes) == Some(side)
    ensures (tile - offset) * tileRes + within < side
    ensures PixelCoord(tile, offset, tileRes, within).Some?
    ensures PixelCoord(tile, offset, tileRes, within).value == U32AsI32((tile - offset) * tileRes + within)
    ensures side <= 0x8000_0000 ==> 0 <= PixelCoord(tile, offset, tileRes, within).value < side
  {
    var u, full := (tile - offset) * tileRes + within, (maxTile - offset + 2) * tileRes;
    ImageSideSpec(offset, maxTile, tileRes);
    assert side == full;
    AddressBelowSide(tile - offset, maxTile - offset + 2, tileRes, within, u, full);
    PixelCoordSpec(tile, offset, tileRes, within);
    assert PixelCoord(tile, offset, tileRes, within) == Some(U32AsI32(u));
  }

  /** The pixel a point is drawn at. */
  function PointPixel(g: GlobalLocation, e: TileExtent, tileRes: u32): Option<(int, int)> {
    match (PixelCoord(g.tileX, e.xMin, tileRes, g.x), PixelCoord(g.tileY, e.yMin, tileRes, g.y))
    case (Some(px), Some(py)) => Some((px, py))
    case _ => None
  }

  /** A line from `start` to `end`, in pixels. */
  datatype Segment = Segment(start: (int, int), end: (int, int))

  /** Every point of the road has a pixel address. */
  predicate Addressable(points: seq<GlobalLocation>, e: TileExtent, tileRes: u32) {
    forall j | 0 <= j < |points| :: PointPixel(points[j], e, tileRes).Some?
  }

  /** What `draw_road` draws: `None` for a road with no points (`len - 1`
      underflows) or with a point that cannot be addressed; otherwise the
      `len - 1` segments joining consecutive points. A single point draws
      nothing and is never addressed. */
  function RoadSegments(points: seq<GlobalLocation>, e: TileExtent, tileRes: u32): Option<seq<Segment>> {
    if |points| == 0 then None
    else if |points| == 1 then Some([])
    else if Addressable(points, e, tileRes) then
      Some(seq(|points| - 1, i requires 0 <= i < |points| - 1 =>
        Segment(PointPixel(points[i], e, tileRes).value, PointPixel(points[i + 1], e, tileRes).value)))
    else None
  }

  /** `draw_road` */
  method DrawRoad(config: Config, offsetX: u32, offsetY: u32, road: Road) returns (r: Option<seq<Segment>>)
    ensures r == RoadSegments(road.points, TileExtent(offsetX, offsetY, 0, 0), config.mapping.tileRes)
  {
    var e := TileExtent(offsetX, offsetY, 0, 0);
    var tileRes := config.mapping.tileRes;
    if |road.points| == 0 {
      return None;
    }
    var segments: seq<Segment> := [];
    for i := 0 to |road.points| - 1
      invariant |segments| == i
      invariant forall j | 0 <= j < i + 1 && i > 0 :: PointPixel(road.points[j], e, tileRes).Some?
      invariant forall j | 0 <= j < i ::
        segments[j] == Segment(PointPixel(road.points[j], e, tileRes).value, PointPixel(road.points[j + 1], e, tileRes).value)
    {
      var start := PointPixel(road.points[i], e, tileRes);
      var end := PointPixel(road.points[i + 1], e, tileRes);
      if start.None? || end.None? {
        assert |road.points| >= 2 && !Addressable(road.points, e, tileRes);
        assert RoadSegments(road.points, e, tileRes) == None;
        return None;
      }
      segments := segments + [Segment(start.value, end.value)];
    }
    if |road.points| > 1 {
      assert Addressable(road.points, e, tileRes);
      var spec := RoadSegments(road.points, e, tileRes).value;
      assert |spec| == |segments|;
      assert forall j | 0 <= j < |segments| :: segments[j] == spec[j];
      assert segments == spec;
      assert Some(segments) == RoadSegments(road.points, e, tileRes);
    } else {
      assert Some(segments) == RoadSegments(road.points, e, tileRes);
    }
    r := Some(segments);
  }

  /** `len - 1` segments, segment `i` joining points `i` and `i + 1`. */
  lemma RoadSegmentsShape(points: seq<GlobalLocation>, e: TileExtent, tileRes: u32)
    requires RoadSegments(points, e, tileRes).Some?
    ensures var s := RoadSegments(points, e, tileRes).value;
      && |points| >= 1 && |s| == |points| - 1
      && forall i | 0 <= i < |s| ::
           Some(s[i].start) == PointPixel(points[i], e, tileRes) && Some(s[i].end) == PointPixel(points[i + 1], e, tileRes)
  {
    if |points| > 1 {
      assert Addressable(points, e, tileRes);
      var s := RoadSegments(points, e, tileRes).value;
      forall i | 0 <= i < |s|
        ensures Some(s[i].start) == PointPixel(points[i], e, tileRes)
        ensures Some(s[i].end) == PointPixel(points[i + 1], e, tileRes)
      {
        assert PointPixel(points[i], e, tileRes).Some? && PointPixel(points[i + 1], e, tileRes).Some?;
      }
    }
  }

  /** A road of two or more points is drawn exactly when all of its
      points are east of and south of the image origin and their addresses
      fit in `u32`. */
  lemma RoadDrawnIff(points: seq<GlobalLocation>, e: TileExtent, tileRes: u32)
    requires |points| >= 2
    ensures RoadSegments(points, e, tileRes).Some? <==>
      forall j | 0 <= j < |points| ::
        && e.xMin <= points[j].tileX && (points[j].tileX - e.xMin) * tileRes + points[j].x <= U32_MAX
        && e.yMin <= points[j].tileY && (points[j].tileY - e.yMin) * tileRes + points[j].y <= U32_MAX
  {
    forall j | 0 <= j < |points|
      ensures PointPixel(points[j], e, tileRes).Some? <==>
        && e.xMin <= points[j].tileX && (points[j].tileX - e.xMin) * tileRes + points[j].x <= U32_MAX
        && e.yMin <= points[j].tileY && (points[j].tileY - e.yMin) * tileRes + points[j].y <= U32_MAX
    {
      PixelCoordSpec(points[j].tileX, e.xMin, tileRes, points[j].x);
      PixelCoordSpec(points[j].tileY, e.yMin, tileRes, points[j].y);
    }
  }

  // ---------------------------------------------------------------------
  // The whole rendering
  // ---------------------------------------------------------------------

  /** The image size and the segments of every road, in road order. */
  datatype Drawing = Drawing(width: u32, height: u32, roads: seq<seq<Segment>>)

  /** The rendering for a given extent: `None` where the source panics. */
  function Rendering(config: Config, m: MapTiles, e: TileExtent): Option<Drawing> {
    match ImageSize(e, config.mapping.tileRes)
    case None => None
    case Some((w, h)) =>
      if forall i | 0 <= i < |m.roads| ::
           RoadSegments(m.roads[i].points, TileExtent(e.xMin, e.yMin, 0, 0), config.mapping.tileRes).Some?
      then
        Some(Drawing(w, h, seq(|m.roads|, i requires 0 <= i < |m.roads| =>
          RoadSegments(m.roads[i].points, TileExtent(e.xMin, e.yMin, 0, 0), config.mapping.tileRes).value)))
      else None
  }

  /** `render_result_to_folder`, without the image buffer and the file. */
  method RenderResult(config: Config, m: MapTiles) returns (e: TileExtent, r: Option<Drawing>)
    ensures IsExtentOf(e, m.tiles)
    ensures r == Rendering(config, m, e)
  {
    e := TileExtentOf(m.tiles);
    var tileRes := config.mapping.tileRes;
    var imgWidth := ImageSide(e.xMin, e.xMax, tileRes);
    var imgHeight := ImageSide(e.yMin, e.yMax, tileRes);
    if imgWidth.None? || imgHeight.None? {
      return e, None;
    }
    var drawn: seq<seq<Segment>> := [];
    for i := 0 to |m.roads|
      invariant |drawn| == i
      invariant forall j | 0 <= j < i ::
        RoadSegments(m.roads[j].points, TileExtent(e.xMin, e.yMin, 0, 0), tileRes) == Some(drawn[j])
    {
      var segments := DrawRoad(config, e.xMin, e.yMin, m.roads[i]);
      if segments.None? {
        assert RoadSegments(m.roads[i].points, TileExtent(e.xMin, e.yMin, 0, 0), tileRes).None?;
        return e, None;
      }
      drawn := drawn + [segments.value];
    }
    assert drawn == seq(|m.roads|, i requires 0 <= i < |m.roads| =>
      RoadSegments(m.roads[i].points, TileExtent(e.xMin, e.yMin, 0, 0), tileRes).value);
    r := Some(Drawing(imgWidth.value, imgHeight.value, drawn));
  }

  /** An empty tile map renders nothing. */
  lemma EmptyMapRendersNothing(config: Config, m: MapTiles, e: TileExtent)
    requires m.tiles == map[] && IsExtentOf(e, m.tiles)
    ensures Rendering(config, m, e) == None
  {
    NoTilesNoImage(config.mapping.tileRes);
  }

  /** A road of two or more points with one point in a column before the
      extent's first (`tile_x - offset_x` underflows) or in a row before its
      first (`tile_y - offset_y` underflows) makes the whole rendering fail. */
  lemma RoadBeforeOriginRendersNothing(config: Config, m: MapTiles, e: TileExtent, i: nat, j: nat)
    requires i < |m.roads| && |m.roads[i].points| >= 2 && j < |m.roads[i].points|
    requires m.roads[i].points[j].tileX < e.xMin || m.roads[i].points[j].tileY < e.yMin
    ensures Rendering(config, m, e) == None
  {
    var g, res := m.roads[i].points[j], config.mapping.tileRes;
    var origin := TileExtent(e.xMin, e.yMin, 0, 0);
    if g.tileX < e.xMin {
      PixelBeforeOrigin(g.tileX, e.xMin, res, g.x);
    } else {
      PixelBeforeOrigin(g.tileY, e.yMin, res, g.y);
    }
    assert PointPixel(m.roads[i].points[j], origin, res).None?;
    assert RoadSegments(m.roads[i].points, origin, res).None?;
  }

  /** One tile, in column 5, from one road; a second road whose box lies in
      column 2 registered no tile. Its points lie west of the extent, so
      nothing is rendered. */
  lemma RoadWestOfTilesExample(config: Config, e: TileExtent)
    requires config.mapping.tileRes == 64
    requires IsExtentOf(e, map[5 := Tile((5, 0), [0])])
    ensures e == TileExtent(5, 0, 5, 0)
    ensures var m := MapTiles(3, map[5 := Tile((5, 0), [0])],
                              [Road([GlobalLocation(5, 0, 1, 1), GlobalLocation(6, 1, 1, 1)], Num(1.0), 50),
                               Road([GlobalLocation(2, 0, 3, 4), GlobalLocation(2, 0, 10, 4)], Num(1.0), 30)]);
      Rendering(config, m, e) == None
  {
    var tiles := map[5 := Tile((5, 0), [0])];
    assert 5 in tiles;
    var m := MapTiles(3, tiles,
                      [Road([GlobalLocation(5, 0, 1, 1), GlobalLocation(6, 1, 1, 1)], Num(1.0), 50),
                       Road([GlobalLocation(2, 0, 3, 4), GlobalLocation(2, 0, 10, 4)], Num(1.0), 30)]);
    RoadBeforeOriginRendersNothing(config, m, e, 1, 0);
  }
}
