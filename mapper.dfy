/** Binning of projected roads into tiles (converter/src/mapper/mod.rs):
    every road is pushed onto a shared road vector, and its index is pushed
    into every tile of the half-open rectangle spanned by its projected
    bounding box. Tiles live in a map keyed `tx + 2^zoom * ty` and are
    created on first use. */
module Mapper {
  import opened RustPrim
  import opened Configuration
  import ReaderData
  import opened MapperData
  import opened MapperMath

  // ---------------------------------------------------------------------
  // Tile keys
  // ---------------------------------------------------------------------

  /** The widest grid whose keys still fit in `u64`. */
  const MAX_GRID_SIDE: nat := 0x1_0000_0000

  lemma Recompose(k: int, n: int)
    requires 0 <= k && 0 < n
    ensures k == k % n + n * (k / n)
  {
  }

  /** `tx + n * ty` with `tx < n` is decoded by division by `n`. */
  lemma Decode(tx: int, ty: int, n: int, k: int)
    requires 0 <= tx < n && 0 <= ty && k == tx + n * ty
    ensures k % n == tx && k / n == ty
  {
    var q := k / n;
    Recompose(k, n);
    if q > ty {
      MulMonotoneInt(ty + 1, q, n, n * (ty + 1), n * q);
      MulSucc(ty, n, n * ty, n * (ty + 1));
      assert false;
    } else if q < ty {
      MulMonotoneInt(q + 1, ty, n, n * (q + 1), n * ty);
      MulSucc(q, n, n * q, n * (q + 1));
      assert false;
    }
  }

  lemma KeyFits(tx: u32, ty: u32, n: nat, k: int)
    requires n <= MAX_GRID_SIDE && k == tx + n * ty
    ensures 0 <= k <= 0xFFFF_FFFF_FFFF_FFFF
  {
    MulMonotoneInt(n, MAX_GRID_SIDE, ty, n * ty, MAX_GRID_SIDE * ty);
    MulMonotoneInt(ty, U32_MAX, MAX_GRID_SIDE, MAX_GRID_SIDE * ty, MAX_GRID_SIDE * U32_MAX);
  }

  /** `tx as u64 + max_tiles_x * ty as u64`; it cannot overflow while the
      grid side is at most `2^32`. */
  function TileKey(tx: u32, ty: u32, n: nat): u64
    requires n <= MAX_GRID_SIDE
  {
    KeyFits(tx, ty, n, tx + n * ty);
    tx + n * ty
  }

  /** Inside the grid the key is decoded by `k % n` and `k / n`. */
  lemma TileKeyDecode(tx: u32, ty: u32, n: nat)
    requires tx < n <= MAX_GRID_SIDE
    ensures TileKey(tx, ty, n) % n == tx && TileKey(tx, ty, n) / n == ty
  {
    Decode(tx, ty, n, TileKey(tx, ty, n));
  }

  /** Inside the grid distinct tiles have distinct keys. */
  lemma TileKeyInjective(tx1: u32, ty1: u32, tx2: u32, ty2: u32, n: nat)
    requires tx1 < n && tx2 < n && n <= MAX_GRID_SIDE
    ensures TileKey(tx1, ty1, n) == TileKey(tx2, ty2, n) <==> tx1 == tx2 && ty1 == ty2
  {
    TileKeyDecode(tx1, ty1, n);
    TileKeyDecode(tx2, ty2, n);
  }

  /** A column index at the grid side collides with the first column of the
      next row. */
  lemma TileKeyWraps(n: nat)
    requires 0 < n <= U32_MAX
    ensures TileKey(n, 0, n) == TileKey(0, 1, n)
  {
  }

  // ---------------------------------------------------------------------
  // The rectangular scan
  // ---------------------------------------------------------------------

  /** The half-open tile ranges `xLo..xHi` and `yLo..yHi` a road is
      registered in. */
  datatype Rect = Rect(xLo: u32, xHi: u32, yLo: u32, yHi: u32)

  /** The rectangle of a road: columns from its south-west corner's column
      up to its north-east corner's, rows from the north-east corner's row
      up to the south-west corner's. */
  function RoadRect(merc: Mercator, zoom: u8, tileRes: u32, road: ReaderData.Road): Rect
    requires zoom < 32
  {
    var posMin := CoordToTile(merc, road.extent.0, zoom, tileRes);
    var posMax := CoordToTile(merc, road.extent.1, zoom, tileRes);
    Rect(posMin.tileX, posMax.tileX, posMax.tileY, posMin.tileY)
  }

  /** The key `k` decodes to a tile inside the box. */
  predicate InBox(k: int, xLo: int, xHi: int, yLo: int, yHi: int, n: nat)
    requires n > 0
  {
    xLo <= k % n < xHi && yLo <= k / n < yHi
  }

  predicate InRect(k: int, r: Rect, n: nat)
    requires n > 0
  {
    InBox(k, r.xLo, r.xHi, r.yLo, r.yHi, n)
  }

  /** The tile at `k` with road `id` pushed, created at `loc` if absent. */
  function Appended(tiles: map<u64, Tile>, k: u64, loc: (u32, u32), id: nat): Tile {
    var t := if k in tiles then tiles[k] else EmptyTile(loc);
    t.(roadIndices := t.roadIndices + [id])
  }

  /** One step of the inner loop: create the tile if needed, push `id`. */
  function Touch(tiles: map<u64, Tile>, tx: u32, ty: u32, n: nat, id: nat): map<u64, Tile>
    requires n <= MAX_GRID_SIDE
  {
    var k := TileKey(tx, ty, n);
    tiles[k := Appended(tiles, k, (tx, ty), id)]
  }

  /** The inner loop over rows `yLo..yHi` of column `tx`. */
  function ScanColumn(tiles: map<u64, Tile>, tx: u32, yLo: u32, yHi: u32, n: nat, id: nat): map<u64, Tile>
    requires n <= MAX_GRID_SIDE
    decreases yHi
  {
    if yHi <= yLo then tiles
    else Touch(ScanColumn(tiles, tx, yLo, yHi - 1, n, id), tx, yHi - 1, n, id)
  }

  /** Both loops: columns `r.xLo..r.xHi`, each scanned over its rows. */
  function ScanRect(tiles: map<u64, Tile>, r: Rect, n: nat, id: nat): map<u64, Tile>
    requires n <= MAX_GRID_SIDE
    decreases r.xHi
  {
    if r.xHi <= r.xLo then tiles
    else ScanColumn(ScanRect(tiles, r.(xHi := r.xHi - 1), n, id), r.xHi - 1, r.yLo, r.yHi, n, id)
  }

  /** A key inside a box of the grid decodes to a tile location. */
  lemma BoxLocation(k: int, xLo: int, xHi: int, yLo: int, yHi: int, n: nat)
    requires 0 < n <= MAX_GRID_SIDE && yHi <= MAX_GRID_SIDE && 0 <= k && InBox(k, xLo, xHi, yLo, yHi, n)
    ensures 0 <= k % n <= U32_MAX && 0 <= k / n <= U32_MAX
  {
  }

  /** `out` is `tiles` with `id` pushed exactly once into every tile of the
      box (created where absent, at its decoded location) and nothing else
      changed. */
  ghost predicate ScannedExactly(tiles: map<u64, Tile>, out: map<u64, Tile>,
                                 xLo: int, xHi: int, yLo: int, yHi: int, n: nat, id: nat)
    requires 0 < n <= MAX_GRID_SIDE && yHi <= MAX_GRID_SIDE
  {
    && (forall k: u64 :: k in out <==> k in tiles || InBox(k, xLo, xHi, yLo, yHi, n))
    && (forall k: u64 | k in tiles && !InBox(k, xLo, xHi, yLo, yHi, n) :: k in out && out[k] == tiles[k])
    && (forall k: u64 | InBox(k, xLo, xHi, yLo, yHi, n) ::
          BoxLocation(k, xLo, xHi, yLo, yHi, n);
          k in out && out[k] == Appended(tiles, k, (k % n, k / n), id))
  }

  lemma {:induction false} ScanColumnExact(tiles: map<u64, Tile>, tx: u32, yLo: u32, yHi: u32, n: nat, id: nat)
    requires tx < n <= MAX_GRID_SIDE
    ensures ScannedExactly(tiles, ScanColumn(tiles, tx, yLo, yHi, n, id), tx, tx + 1, yLo, yHi, n, id)
    decreases yHi
  {
    if yHi > yLo {
      var prev := ScanColumn(tiles, tx, yLo, yHi - 1, n, id);
      ScanColumnExact(tiles, tx, yLo, yHi - 1, n, id);
      var xEnd, row := tx + 1, yHi - 1;
      var key := TileKey(tx, row, n);
      TileKeyDecode(tx, row, n);
      forall k: u64
        ensures InBox(k, tx, xEnd, yLo, yHi, n) <==> InBox(k, tx, xEnd, yLo, row, n) || k == key
      {
        if InBox(k, tx, xEnd, yLo, yHi, n) && k / n == row {
          Recompose(k, n);
        }
      }
    }
  }

  lemma {:induction false} ScanRectExact(tiles: map<u64, Tile>, r: Rect, n: nat, id: nat)
    requires 0 < n <= MAX_GRID_SIDE && r.xHi <= n
    ensures ScannedExactly(tiles, ScanRect(tiles, r, n, id), r.xLo, r.xHi, r.yLo, r.yHi, n, id)
    decreases r.xHi
  {
    if r.xHi > r.xLo {
      var r' := r.(xHi := r.xHi - 1);
      var mid := ScanRect(tiles, r', n, id);
      ScanRectExact(tiles, r', n, id);
      ScanColumnExact(mid, r.xHi - 1, r.yLo, r.yHi, n, id);
    }
  }

  /** An empty range on either axis registers the road in no tile. */
  lemma {:induction false} ScanColumnEmpty(tiles: map<u64, Tile>, tx: u32, yLo: u32, yHi: u32, n: nat, id: nat)
    requires n <= MAX_GRID_SIDE && yHi <= yLo
    ensures ScanColumn(tiles, tx, yLo, yHi, n, id) == tiles
  {
  }

  lemma {:induction false} ScanRectEmpty(tiles: map<u64, Tile>, r: Rect, n: nat, id: nat)
    requires n <= MAX_GRID_SIDE && (r.xHi <= r.xLo || r.yHi <= r.yLo)
    ensures ScanRect(tiles, r, n, id) == tiles
    decreases r.xHi
  {
    if r.xHi > r.xLo {
      ScanRectEmpty(tiles, r.(xHi := r.xHi - 1), n, id);
      ScanColumnEmpty(tiles, r.xHi - 1, r.yLo, r.yHi, n, id);
    }
  }

  /** A box with at least one column and one row inside the grid registers
      the road in its first tile, at that tile's own location. */
  lemma ScanRectRegistersCorner(tiles: map<u64, Tile>, r: Rect, n: nat, id: nat)
    requires 0 < n <= MAX_GRID_SIDE && r.xHi <= n
    requires r.xLo < r.xHi && r.yLo < r.yHi
    ensures var k := TileKey(r.xLo, r.yLo, n);
      var out := ScanRect(tiles, r, n, id);
      k in out && out[k].location == (if k in tiles then tiles[k].location else (r.xLo, r.yLo))
      && out[k].roadIndices == (if k in tiles then tiles[k].roadIndices else []) + [id]
  {
    ScanRectExact(tiles, r, n, id);
    TileKeyDecode(r.xLo, r.yLo, n);
  }

  // ---------------------------------------------------------------------
  // Invariants the scan keeps without any grid assumption
  // ---------------------------------------------------------------------

  /** Every road index stored in a tile is below `m`. */
  ghost predicate IndicesBelow(tiles: map<u64, Tile>, m: nat) {
    forall k | k in tiles :: forall j | 0 <= j < |tiles[k].roadIndices| :: tiles[k].roadIndices[j] < m
  }

  /** Every tile is stored under the key of its own location. */
  ghost predicate KeysMatch(tiles: map<u64, Tile>, n: nat)
    requires n <= MAX_GRID_SIDE
  {
    forall k | k in tiles :: TileKey(tiles[k].location.0, tiles[k].location.1, n) == k
  }

  /** Existing tiles stay, keep their location, and their old index list is
      a prefix of the new one. */
  ghost predicate Grows(tiles: map<u64, Tile>, out: map<u64, Tile>) {
    forall k | k in tiles ::
      k in out && out[k].location == tiles[k].location && tiles[k].roadIndices <= out[k].roadIndices
  }

  lemma GrowsTransitive(a: map<u64, Tile>, b: map<u64, Tile>, c: map<u64, Tile>)
    requires Grows(a, b) && Grows(b, c)
    ensures Grows(a, c)
  {
  }

  lemma TouchKeeps(tiles: map<u64, Tile>, tx: u32, ty: u32, n: nat, id: nat, m: nat)
    requires n <= MAX_GRID_SIDE && id < m
    ensures var out := Touch(tiles, tx, ty, n, id);
      && Grows(tiles, out)
      && (IndicesBelow(tiles, m) ==> IndicesBelow(out, m))
      && (KeysMatch(tiles, n) ==> KeysMatch(out, n))
  {
  }

  lemma {:induction false} ScanColumnKeeps(tiles: map<u64, Tile>, tx: u32, yLo: u32, yHi: u32, n: nat, id: nat, m: nat)
    requires n <= MAX_GRID_SIDE && id < m
    ensures var out := ScanColumn(tiles, tx, yLo, yHi, n, id);
      && Grows(tiles, out)
      && (IndicesBelow(tiles, m) ==> IndicesBelow(out, m))
      && (KeysMatch(tiles, n) ==> KeysMatch(out, n))
    decreases yHi
  {
    if yHi > yLo {
      var prev := ScanColumn(tiles, tx, yLo, yHi - 1, n, id);
      ScanColumnKeeps(tiles, tx, yLo, yHi - 1, n, id, m);
      TouchKeeps(prev, tx, yHi - 1, n, id, m);
      GrowsTransitive(tiles, prev, Touch(prev, tx, yHi - 1, n, id));
    }
  }

  /** The scan only ever adds `id`, keeps every existing tile as a prefix,
      and stores every tile under its own location's key, whatever the
      rectangle. */
  lemma {:induction false} ScanRectKeeps(tiles: map<u64, Tile>, r: Rect, n: nat, id: nat, m: nat)
    requires n <= MAX_GRID_SIDE && id < m
    ensures var out := ScanRect(tiles, r, n, id);
      && Grows(tiles, out)
      && (IndicesBelow(tiles, m) ==> IndicesBelow(out, m))
      && (KeysMatch(tiles, n) ==> KeysMatch(out, n))
    decreases r.xHi
  {
    if r.xHi > r.xLo {
      var r' := r.(xHi := r.xHi - 1);
      var mid := ScanRect(tiles, r', n, id);
      ScanRectKeeps(tiles, r', n, id, m);
      ScanColumnKeeps(mid, r.xHi - 1, r.yLo, r.yHi, n, id, m);
      GrowsTransitive(tiles, mid, ScanRect(tiles, r, n, id));
    }
  }

  lemma IndicesBelowMonotone(tiles: map<u64, Tile>, m: nat, m': nat)
    requires IndicesBelow(tiles, m) && m <= m'
    ensures IndicesBelow(tiles, m')
  {
  }

  // ---------------------------------------------------------------------
  // The whole map
  // ---------------------------------------------------------------------

  /** `max_tiles_x`, `2^zoom`. */
  function GridSide(zoom: u8): (n: nat)
    requires zoom < 32
    ensures 1 <= n <= MAX_GRID_SIDE / 2
  {
    Pow2Below32(zoom);
    Pow2(zoom)
  }

  /** A road with every point projected and its attributes copied. */
  function MapRoad(merc: Mercator, zoom: u8, tileRes: u32, road: ReaderData.Road): Road
    requires zoom < 32
  {
    Road(seq(|road.points|, j requires 0 <= j < |road.points| => CoordToTile(merc, road.points[j], zoom, tileRes)),
         road.width, road.speedlimit)
  }

  function MapRoads(merc: Mercator, zoom: u8, tileRes: u32, roads: seq<ReaderData.Road>): seq<Road>
    requires zoom < 32
  {
    seq(|roads|, i requires 0 <= i < |roads| => MapRoad(merc, zoom, tileRes, roads[i]))
  }

  /** One mapped road per input road, at the same index; point `j` is the
      projection of input point `j`, and width and speed limit are copied. */
  lemma MapRoadsSpec(merc: Mercator, zoom: u8, tileRes: u32, roads: seq<ReaderData.Road>)
    requires zoom < 32
    ensures var out := MapRoads(merc, zoom, tileRes, roads);
      && |out| == |roads|
      && forall i | 0 <= i < |roads| ::
           && |out[i].points| == |roads[i].points|
           && out[i].width == roads[i].width && out[i].speedlimit == roads[i].speedlimit
           && forall j | 0 <= j < |roads[i].points| ::
                out[i].points[j] == CoordToTile(merc, roads[i].points[j], zoom, tileRes)
  {
  }

  /** The rectangles of all roads, by road index. */
  function Rects(merc: Mercator, zoom: u8, tileRes: u32, roads: seq<ReaderData.Road>): seq<Rect>
    requires zoom < 32
  {
    seq(|roads|, i requires 0 <= i < |roads| => RoadRect(merc, zoom, tileRes, roads[i]))
  }

  /** The tile map after registering the roads one after the other, road
      `i` under index `i`. */
  function TilesOf(merc: Mercator, zoom: u8, tileRes: u32, roads: seq<ReaderData.Road>): map<u64, Tile>
    requires zoom < 32
    decreases |roads|
  {
    if |roads| == 0 then map[]
    else
      var last := |roads| - 1;
      ScanRect(TilesOf(merc, zoom, tileRes, roads[..last]), RoadRect(merc, zoom, tileRes, roads[last]),
               GridSide(zoom), last)
  }

  /** The positions, in increasing order, at which `marks` is true. */
  function IndicesOf(marks: seq<bool>): seq<nat>
    decreases |marks|
  {
    if |marks| == 0 then []
    else
      var last := |marks| - 1;
      IndicesOf(marks[..last]) + (if marks[last] then [last] else [])
  }

  lemma {:induction false} IndicesOfSpec(marks: seq<bool>)
    ensures forall j | 0 <= j < |IndicesOf(marks)| :: IndicesOf(marks)[j] < |marks| && marks[IndicesOf(marks)[j]]
    ensures forall a, b | 0 <= a < b < |IndicesOf(marks)| :: IndicesOf(marks)[a] < IndicesOf(marks)[b]
    ensures forall i | 0 <= i < |marks| && marks[i] :: i in IndicesOf(marks)
    decreases |marks|
  {
    if |marks| > 0 {
      var last := |marks| - 1;
      var prev := marks[..last];
      IndicesOfSpec(prev);
      var h, hp := IndicesOf(marks), IndicesOf(prev);
      forall j | 0 <= j < |h|
        ensures h[j] < |marks| && marks[h[j]]
      {
        if j < |hp| {
          assert h[j] == hp[j] && marks[hp[j]] == prev[hp[j]];
        }
      }
      forall i | 0 <= i < |marks| && marks[i]
        ensures i in h
      {
        if i < last {
          assert prev[i];
        }
      }
    }
  }

  /** The indices, in increasing order, of the rectangles containing key `k`. */
  function Hits(k: int, rects: seq<Rect>, n: nat): seq<nat>
    requires n > 0
  {
    IndicesOf(seq(|rects|, i requires 0 <= i < |rects| => InRect(k, rects[i], n)))
  }

  /** Exactly the rectangles that contain `k` are listed, in increasing order. */
  lemma HitsSpec(k: int, rects: seq<Rect>, n: nat)
    requires n > 0
    ensures forall j | 0 <= j < |Hits(k, rects, n)| ::
      Hits(k, rects, n)[j] < |rects| && InRect(k, rects[Hits(k, rects, n)[j]], n)
    ensures forall a, b | 0 <= a < b < |Hits(k, rects, n)| :: Hits(k, rects, n)[a] < Hits(k, rects, n)[b]
    ensures forall i | 0 <= i < |rects| && InRect(k, rects[i], n) :: i in Hits(k, rects, n)
  {
    var marks := seq(|rects|, i requires 0 <= i < |rects| => InRect(k, rects[i], n));
    IndicesOfSpec(marks);
  }

  lemma HitsStep(k: int, rects: seq<Rect>, n: nat)
    requires n > 0 && |rects| > 0
    ensures var last := |rects| - 1;
      Hits(k, rects, n) == Hits(k, rects[..last], n) + (if InRect(k, rects[last], n) then [last] else [])
  {
    var last := |rects| - 1;
    var marks := seq(|rects|, i requires 0 <= i < |rects| => InRect(k, rects[i], n));
    assert marks[..last] == seq(last, i requires 0 <= i < last => InRect(k, rects[..last][i], n));
  }

  /** No road's rectangle reaches past the east edge of the grid. */
  ghost predicate InsideGrid(rects: seq<Rect>, n: nat) {
    forall i | 0 <= i < |rects| :: rects[i].xHi <= n
  }

  /** Longitudes up to 180 keep every rectangle inside the grid. */
  lemma EastEdgeInsideGrid(merc: Mercator, zoom: u8, tileRes: u32, roads: seq<ReaderData.Road>)
    requires zoom < 32
    requires forall i | 0 <= i < |roads| :: roads[i].extent.1.lon <= 180.0
    ensures InsideGrid(Rects(merc, zoom, tileRes, roads), GridSide(zoom))
  {
    forall i | 0 <= i < |roads|
      ensures Rects(merc, zoom, tileRes, roads)[i].xHi <= GridSide(zoom)
    {
      TileXAtMostGrid(merc, roads[i].extent.1, zoom, tileRes);
    }
  }

  /** Index validity and key/location agreement, for any input. */
  lemma {:induction false} TilesOfValid(merc: Mercator, zoom: u8, tileRes: u32, roads: seq<ReaderData.Road>)
    requires zoom < 32
    ensures IndicesBelow(TilesOf(merc, zoom, tileRes, roads), |roads|)
    ensures KeysMatch(TilesOf(merc, zoom, tileRes, roads), GridSide(zoom))
    decreases |roads|
  {
    if |roads| > 0 {
      var last := |roads| - 1;
      var prev := TilesOf(merc, zoom, tileRes, roads[..last]);
      TilesOfValid(merc, zoom, tileRes, roads[..last]);
      IndicesBelowMonotone(prev, last, |roads|);
      ScanRectKeeps(prev, RoadRect(merc, zoom, tileRes, roads[last]), GridSide(zoom), last, |roads|);
    }
  }

  /** Coverage: when every rectangle is inside the grid, a tile exists
      exactly for the keys some road's rectangle contains, it sits at the
      location its key decodes to, and it lists exactly the roads whose
      rectangle contains it, in increasing order. */
  lemma {:induction false} TilesOfCoverage(merc: Mercator, zoom: u8, tileRes: u32, roads: seq<ReaderData.Road>)
    requires zoom < 32 && InsideGrid(Rects(merc, zoom, tileRes, roads), GridSide(zoom))
    ensures var tiles, rects, n := TilesOf(merc, zoom, tileRes, roads), Rects(merc, zoom, tileRes, roads), GridSide(zoom);
      && (forall k: u64 :: k in tiles <==> |Hits(k, rects, n)| > 0)
      && (forall k: u64 | k in tiles ::
            tiles[k].roadIndices == Hits(k, rects, n) && tiles[k].location.0 == k % n && tiles[k].location.1 == k / n)
    decreases |roads|
  {
    if |roads| > 0 {
      var n := GridSide(zoom);
      var last := |roads| - 1;
      var rects := Rects(merc, zoom, tileRes, roads);
      var prevRects := Rects(merc, zoom, tileRes, roads[..last]);
      assert prevRects == rects[..last];
      var prev := TilesOf(merc, zoom, tileRes, roads[..last]);
      TilesOfCoverage(merc, zoom, tileRes, roads[..last]);
      var r := rects[last];
      ScanRectExact(prev, r, n, last);
      forall k: u64
        ensures Hits(k, rects, n) == Hits(k, prevRects, n) + (if InRect(k, r, n) then [last] else [])
      {
        HitsStep(k, rects, n);
      }
    }
  }

  /** With every rectangle inside the grid, each tile's road indices are
      strictly increasing and valid. */
  lemma TilesOfIndicesIncreasing(merc: Mercator, zoom: u8, tileRes: u32, roads: seq<ReaderData.Road>)
    requires zoom < 32 && InsideGrid(Rects(merc, zoom, tileRes, roads), GridSide(zoom))
    ensures var tiles := TilesOf(merc, zoom, tileRes, roads);
      forall k | k in tiles :: forall a, b | 0 <= a < b < |tiles[k].roadIndices| ::
        tiles[k].roadIndices[a] < tiles[k].roadIndices[b]
  {
    TilesOfCoverage(merc, zoom, tileRes, roads);
    var tiles := TilesOf(merc, zoom, tileRes, roads);
    forall k | k in tiles
      ensures forall a, b | 0 <= a < b < |tiles[k].roadIndices| :: tiles[k].roadIndices[a] < tiles[k].roadIndices[b]
    {
      HitsSpec(k, Rects(merc, zoom, tileRes, roads), GridSide(zoom));
    }
  }

  // ---------------------------------------------------------------------
  // The imperative code
  // ---------------------------------------------------------------------

  /** `map_road_to_tiles`: the two `&mut` arguments are passed in and the
      updated values returned. */
  method MapRoadToTiles(merc: Mercator, zoom: u8, tileRes: u32, maxTilesX: u64,
                        tiles: map<u64, Tile>, mappedRoads: seq<Road>, road: ReaderData.Road)
    returns (newTiles: map<u64, Tile>, newRoads: seq<Road>)
    requires zoom < 32 && maxTilesX <= MAX_GRID_SIDE
    ensures newRoads == mappedRoads + [MapRoad(merc, zoom, tileRes, road)]
    ensures newTiles == ScanRect(tiles, RoadRect(merc, zoom, tileRes, road), maxTilesX, |mappedRoads|)
  {
    var mappedPoints := seq(|road.points|, j requires 0 <= j < |road.points| => CoordToTile(merc, road.points[j], zoom, tileRes));
    var roadId := |mappedRoads|;
    newRoads := mappedRoads + [Road(mappedPoints, road.width, road.speedlimit)];

    var posMin := CoordToTile(merc, road.extent.0, zoom, tileRes);
    var posMax := CoordToTile(merc, road.extent.1, zoom, tileRes);
    newTiles := tiles;
    var tx := posMin.tileX;
    while tx < posMax.tileX
      invariant posMin.tileX <= tx <= if posMin.tileX < posMax.tileX then posMax.tileX else posMin.tileX
      invariant newTiles == ScanRect(tiles, Rect(posMin.tileX, tx, posMax.tileY, posMin.tileY), maxTilesX, roadId)
      decreases posMax.tileX - tx
    {
      newTiles := RegisterInColumn(newTiles, tx, posMax.tileY, posMin.tileY, maxTilesX, roadId);
      tx := tx + 1;
    }
  }

  /** The inner `for ty` loop of `map_road_to_tiles` for column `tx`. */
  method RegisterInColumn(tiles: map<u64, Tile>, tx: u32, yLo: u32, yHi: u32, maxTilesX: u64, roadId: nat)
    returns (newTiles: map<u64, Tile>)
    requires maxTilesX <= MAX_GRID_SIDE
    ensures newTiles == ScanColumn(tiles, tx, yLo, yHi, maxTilesX, roadId)
  {
    newTiles := tiles;
    var ty := yLo;
    while ty < yHi
      invariant yLo <= ty <= if yLo < yHi then yHi else yLo
      invariant newTiles == ScanColumn(tiles, tx, yLo, ty, maxTilesX, roadId)
      decreases yHi - ty
    {
      var tileId := TileKey(tx, ty, maxTilesX);
      if tileId !in newTiles {
        newTiles := newTiles[tileId := EmptyTile((tx, ty))];
      }
      var tileRef := newTiles[tileId];
      newTiles := newTiles[tileId := tileRef.(roadIndices := tileRef.roadIndices + [roadId])];
      ty := ty + 1;
    }
  }

  /** `map_to_tiles` */
  method MapToTiles(merc: Mercator, config: Config, m: ReaderData.Map) returns (r: MapTiles)
    requires config.mapping.zoom < 32
    ensures r.zoom == config.mapping.zoom
    ensures r.roads == MapRoads(merc, config.mapping.zoom, config.mapping.tileRes, m.roads)
    ensures r.tiles == TilesOf(merc, config.mapping.zoom, config.mapping.tileRes, m.roads)
  {
    var zoom, tileRes := config.mapping.zoom, config.mapping.tileRes;
    var maxTilesX: u64 := GridSide(zoom);
    var mappedRoads: seq<Road> := [];
    var tiles: map<u64, Tile> := map[];
    for i := 0 to |m.roads|
      invariant mappedRoads == MapRoads(merc, zoom, tileRes, m.roads[..i])
      invariant tiles == TilesOf(merc, zoom, tileRes, m.roads[..i])
    {
      assert m.roads[..i + 1][..i] == m.roads[..i];
      tiles, mappedRoads := MapRoadToTiles(merc, zoom, tileRes, maxTilesX, tiles, mappedRoads, m.roads[i]);
    }
    assert m.roads[..|m.roads|] == m.roads;
    r := MapTiles(zoom, tiles, mappedRoads);
  }
}
