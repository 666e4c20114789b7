# psp_retro_nav converter core in Dafny

This project models the offline map converter of psp_retro_nav (`converter/src`).
The converter has three stages, and the model follows them file by file:

- **Reading** (`reader/mod.rs`, `reader/data.rs`; modules `Reader` and `ReaderData`).
  - The OpenStreetMap extract is a sequence of way, node and dense-node elements.
  - A callback folds over it. The fold keeps the node table (a later node with the same id replaces an earlier one), the running global min/max extent, and the accepted raw roads.
  - A way is accepted when it has a `highway` tag and neither `motorcar` nor `motor_vehicle` is `"no"`. Its `width` and `speedlimit` tags are parsed on the way in.
  - A second pass then resolves every road's node references into points. It skips ids missing from the table, drops roads with fewer than two points, and computes each road's own extent in a loop.
- **Tile binning** (`mapper/mod.rs`, `mapper/math.rs`, `mapper/data.rs`; modules `Mapper`, `MapperMath`, `MapperData`).
  - Every point is projected with the slippy-map tile scheme. Each axis is split into a tile index and a pixel offset, using Rust's saturating `as u32`.
  - Every road is pushed onto the road vector. Its index is then pushed into each tile of the half-open rectangle spanned by its projected bounding box.
  - Each such tile is created on demand under the key `tx + 2^zoom * ty`.
- **Rendering** (`render/mod.rs`; module `Render`).
  - A min/max fold over the tile locations gives the tile extent.
  - From it come the image size and the `u32` pixel address of every road point. `draw_road` joins consecutive points with segments.
  - The model stops at the list of segments that would be drawn.

Module `RustPrim` holds the Rust primitives these stages rely on:

- the fixed-width integer types;
- `f32` values, including the infinities and NaN;
- the saturating float casts;
- `Option`/`Result`;
- the checked `u32` arithmetic of a debug build.

Module `Configuration` holds the settings records of `config.rs`.

Modelling choices:

- **Stateful loops are methods with loop invariants.** These are the element callback (`Reader.IngestElements`), the road-extent loop (`Reader.ResolveRoad`), `map_to_tiles` and the two nested scans of `map_road_to_tiles`, the tile-extent loop, and the `draw_road` and road loops.
- **Each loop is proved to compute a specification function.** The lemmas then state the source's properties about that function. The one exception is the tile-extent loop (`Render.TileExtentOf`). It is proved to meet the relation `IsExtentOf`, and `Render.ExtentUnique` shows that this relation has exactly one solution.
- **Mutable containers are in/out values.** The `&mut HashMap` and `&mut Vec` parameters are passed in and the updated values are returned.
- **Panics become error values.** A debug-build panic (an `unwrap` on a missing value, a `u32` underflow or overflow) is an `Err`/`None` result. The exception is the `pow` overflow at zoom 32 and above. That one is a precondition, `zoom < 32`, as "Left out" records.
- **Unknown functions are parameters.**
  - `str::parse::<f32>` is a partial function `parse: string -> Option<F32>`.
  - The latitude transform `asinh(tan(lat * PI / 180))` is a function `merc: real -> real`. The only thing some lemmas assume about it is that it is monotone.
- **`f64` and `f32` arithmetic is exact `real` arithmetic.**

Two behaviours of the code are modelled as written, though they look unintended:

- **Width in centimetres.** The `cm` arm (`reader/mod.rs:50-51`) shows that centimetre values were meant to be handled. The `"m"` suffix test before it, however, catches every `"...cm"` value. `"250cm"` therefore parses `"250c"`, which fails, and gives the default 1.0. The `cm` arm is unreachable; if it were reached, it would multiply by 100 rather than divide. `Reader.WidthMetreSuffix`, `Reader.CentimetreIsMetreSuffix` and `Reader.Width250cm` state this.
- **Exclusive upper bounds in the tile scan.** The scan's upper bounds are exclusive, as written. A road whose box lies in one tile column or one row registers in no tile (`Mapper.ScanRectEmpty`).
  - A consequence in the renderer: such a road may lie west of the extent of all tiles, or north of it. West of the extent, drawing underflows `tile_x - offset_x`; north of it, `tile_y - offset_y`. Either way the whole rendering fails.
    - `Render.PixelBeforeOrigin` and `Render.RoadDrawnIff` state this point by point.
    - `Render.RoadBeforeOriginRendersNothing` states it for the whole rendering.
    - `Render.RoadWestOfTilesExample` gives an instance: one tile in column 5, and a road in column 2.

## Model

| member | source | states |
|---|---|---|
| RustPrim.F32AsU8 | converter/src/reader/mod.rs:57-61 | `as u8` on an f32 saturates: NaN, -inf and values below 1 give 0; +inf and values from 255 up give 255; in between it truncates toward zero |
| RustPrim.RealAsU32 | converter/src/mapper/math.rs:33-36 | `as u32` on a float saturates: below 1 gives 0, from `u32::MAX` up gives `u32::MAX`, in range it truncates |
| RustPrim.Fract | converter/src/mapper/math.rs:35-36 | `fract` of a non-negative value lies in [0, 1) and equals the value minus its floor; of a negative value it lies in (-1, 0] |
| RustPrim.CheckedSub | converter/src/render/mod.rs:18-19 | `u32` subtraction succeeds exactly when it does not underflow, and then gives the difference |
| RustPrim.CheckedAddWraps | converter/src/render/mod.rs:18-19 | debug-build `u32` addition succeeds exactly when the release build's wrapped sum equals the true sum; on overflow the wrapped sum is below both operands |
| RustPrim.CheckedMulWraps | converter/src/render/mod.rs:18-19 | debug-build `u32` multiplication succeeds exactly when the release build's wrapped product equals the true product; on overflow `a` is non-zero and the wrapped product divided by `a` is not `b` |
| RustPrim.U32AsI32 | converter/src/render/mod.rs:37-42 | `as i32` keeps values below 2^31 and maps larger ones to the negative value 2^32 below them |
| RustPrim.Pow2Below32 | converter/src/mapper/math.rs:26 | for zoom < 32, `2^zoom` is at most 2^31, so `2u32.pow(zoom)` does not overflow |
| ReaderData.Coord.MinEach | converter/src/reader/data.rs:50-55 | each component is at most both arguments' components and equals one of them |
| ReaderData.Coord.MaxEach | converter/src/reader/data.rs:57-62 | each component is at least both arguments' components and equals one of them |
| ReaderData.MinLeMax | converter/src/reader/data.rs:50-62 | `min_each(a, b)` is componentwise at most `a`, `b` and `max_each(a, b)`; `max_each` is at least both |
| ReaderData.MinMaxCommutative | converter/src/reader/data.rs:50-62 | `min_each` and `max_each` are commutative |
| ReaderData.MinMaxAssociative | converter/src/reader/data.rs:50-62 | `min_each` and `max_each` are associative, so the extent folds do not depend on grouping |
| ReaderData.MinMaxIdempotent | converter/src/reader/data.rs:50-62 | `min_each(a, a) == a` and `max_each(a, a) == a` |
| Reader.TagMapContents | converter/src/reader/mod.rs:34-37 | the collected tag map has exactly the keys of the tag list, and each key maps to a value paired with it in the list |
| Reader.AcceptWaySpec | converter/src/reader/mod.rs:39-44 | a way becomes a raw road exactly when it has a `highway` tag and neither `motorcar` nor `motor_vehicle` is `"no"`; the road keeps the way's id, node references and `highway` value |
| Reader.AccessTagExamples | converter/src/reader/mod.rs:39-42 | a residential way with `motorcar=no` is rejected; one with no access tag is accepted |
| Reader.WidthAbsent | converter/src/reader/mod.rs:46-56 | no `width` tag gives 1.0 metre |
| Reader.WidthBare | converter/src/reader/mod.rs:46-56 | a value without an `m` suffix is parsed whole, with 1.0 when the parse fails |
| Reader.WidthMetreSuffix | converter/src/reader/mod.rs:48-52 | every value ending in `m`, including every `cm` value, is parsed without its last character, with 1.0 when the parse fails |
| Reader.CentimetreIsMetreSuffix | converter/src/reader/mod.rs:49-50 | every string ending in `cm` also ends in `m`, so the `m` arm is always tried first |
| Reader.Width3m | converter/src/reader/mod.rs:49 | `"3m"` gives 3.0 when `"3"` parses as 3 |
| Reader.Width250cm | converter/src/reader/mod.rs:49-52 | `"250cm"` gives 1.0 when `"250c"` is rejected |
| Reader.SpeedlimitSpec | converter/src/reader/mod.rs:57-61 | an absent, rejected or NaN speed limit gives 0; other numbers are cast with saturation and truncation into `u8` |
| Reader.Speedlimit50 | converter/src/reader/mod.rs:57-61 | `"50"` gives 50 and `"100.0"` gives 100 |
| Reader.FoldExtentMin | converter/src/reader/mod.rs:91-95 | `coord_min` is set exactly when a node has been seen, and is then the componentwise minimum of the node coordinates, each component attained by some node |
| Reader.FoldExtentMax | converter/src/reader/mod.rs:96-100 | `coord_max` is set exactly when a node has been seen, and is then the componentwise maximum of the node coordinates, each component attained by some node |
| Reader.NodeTableDomain | converter/src/reader/mod.rs:101-102 | the node table holds exactly the ids of the node elements seen, each under its own id |
| Reader.NodeTableLastWins | converter/src/reader/mod.rs:124-125 | a node id maps to the last node element delivered with that id |
| Reader.DataRoadsAppend | converter/src/reader/mod.rs:62-69 | the accepted roads of two streams in sequence are those of the first followed by those of the second |
| Reader.DataRoadsOfElement | converter/src/reader/mod.rs:33-80 | a single element contributes its raw road exactly when it is an accepted way |
| Reader.FoldCongruent | converter/src/reader/mod.rs:32-128 | two streams that leave the same state still do so after the same continuation |
| Reader.FoldSwapWayNode | converter/src/reader/mod.rs:32-128 | swapping a way with an adjacent node leaves the state after the fold unchanged |
| Reader.ReadMapOrderIndependent | converter/src/reader/mod.rs:132-143 | the resulting map does not depend on whether a node arrives before or after a way |
| Reader.ResolvePoints | converter/src/reader/mod.rs:135-140 | a road has no more points than node references |
| Reader.ResolvePointsFromRefs | converter/src/reader/mod.rs:135-140 | every point is the coordinate of one of the referenced nodes |
| Reader.ResolvePointsAppend | converter/src/reader/mod.rs:135-140 | resolution distributes over concatenation of reference lists, so reference order is kept |
| Reader.SkipsMissing | converter/src/reader/mod.rs:138 | an id missing from the node table is skipped |
| Reader.ResolvePointsAllPresent | converter/src/reader/mod.rs:135-140 | when every id is present, point `k` is the coordinate of reference `k` |
| Reader.SeqExtent | converter/src/reader/mod.rs:144-149 | the road-extent loop yields a box holding every point, each side attained by a point |
| Reader.ResolvedRoadSpec | converter/src/reader/mod.rs:134-156 | a road survives exactly when it resolves to two or more points; it then keeps its points, width and speed limit, and its extent bounds every point with each side attained |
| Reader.DropsShortRoad | converter/src/reader/mod.rs:141-143 | a two-reference road with one missing node is dropped |
| Reader.Resolve | converter/src/reader/mod.rs:132-157 | there are no more roads out than raw roads in, and each has at least two points |
| Reader.ResolveAppend | converter/src/reader/mod.rs:132-157 | resolution distributes over concatenation, so accepted order is kept |
| Reader.ResolveExtents | converter/src/reader/mod.rs:144-157 | every output road's extent bounds all its points, each side attained |
| Reader.ReadMapSpec | converter/src/reader/mod.rs:8-171 | reading fails when the file cannot be opened, when decoding fails, or when no node was delivered (the `unwrap` at 161-162), and otherwise succeeds; a map has no objects, at most as many roads as accepted ways, each with two or more points and a valid extent, and the exact global node extent |
| Reader.IngestElements | converter/src/reader/mod.rs:21-130 | the callback loop leaves node table, raw roads and global extent equal to the fold of the element stream |
| Reader.ResolveRoad | converter/src/reader/mod.rs:134-156 | the point-gathering and extent loop produces exactly the resolved road, or drops it |
| Reader.ReadOsmPbf | converter/src/reader/mod.rs:8-171 | `read_osm_pbf` yields exactly the map, or failure, that reading specifies |
| MapperMath.FloorAsU32Exact | converter/src/mapper/math.rs:33-34 | `floor() as u32` is the floor for values in `[0, 2^32)` |
| MapperMath.FloorAsU32Monotone | converter/src/mapper/math.rs:33-34 | `floor() as u32` is monotone |
| MapperMath.OffsetOfFraction | converter/src/mapper/math.rs:35-36 | a fraction in [0, 1) scaled by the tile resolution gives an offset below the resolution, within one of the scaled value |
| MapperMath.AxisSplit | converter/src/mapper/math.rs:33-36 | for values in `[0, 2^32)` the tile index is the floor, the pixel offset is below the resolution, and index times resolution plus offset is the scaled value to within one pixel |
| MapperMath.AxisNegative | converter/src/mapper/math.rs:33-36 | a negative value saturates both tile index and offset to 0 |
| MapperMath.GridXInGrid | converter/src/mapper/math.rs:22-27 | for longitudes in [-180, 180) the scaled column lies in `[0, 2^zoom)` |
| MapperMath.GridXAtMostGrid | converter/src/mapper/math.rs:22-27 | for longitudes up to 180 the scaled column is at most `2^zoom` |
| MapperMath.TileXInGrid | converter/src/mapper/math.rs:22-33 | for longitudes in [-180, 180), `tile_x < 2^zoom` |
| MapperMath.TileXAtMostGrid | converter/src/mapper/math.rs:22-33 | for longitudes up to 180, `tile_x <= 2^zoom` |
| MapperMath.TileXMonotone | converter/src/mapper/math.rs:22-33 | `tile_x` does not decrease with longitude |
| MapperMath.TileYAntitone | converter/src/mapper/math.rs:23-34 | `tile_y` does not increase with the transformed latitude |
| MapperMath.NorthIsUp | converter/src/mapper/math.rs:12-34 | with a transform increasing between the poles, a point further north never has a larger row |
| MapperMath.RoundTripX | converter/src/mapper/math.rs:22-35 | the pixel offset `x` is below the resolution, and `tile_x * tile_res + x` is the scaled longitude in pixels, to within one pixel |
| MapperMath.RoundTripY | converter/src/mapper/math.rs:23-36 | the same for rows, whenever the scaled row lies in `[0, 2^32)` |
| MapperMath.WestSaturates | converter/src/mapper/math.rs:33-35 | longitudes west of -180 give `tile_x == 0` and `x == 0` |
| Mapper.GridSide | converter/src/mapper/mod.rs:17 | `max_tiles_x = 2^zoom` is between 1 and 2^31 for zoom < 32 |
| Mapper.TileKeyDecode | converter/src/mapper/mod.rs:73 | for `tx < max_tiles_x` the key recovers the tile: `key % n == tx` and `key / n == ty` |
| Mapper.TileKeyInjective | converter/src/mapper/mod.rs:17-73 | for columns below `2^zoom`, two tiles share a key exactly when they are the same tile |
| Mapper.TileKeyWraps | converter/src/mapper/mod.rs:73 | without that bound, column `n` of row 0 collides with column 0 of row 1 |
| Mapper.MapRoadsSpec | converter/src/mapper/mod.rs:50-62 | one mapped road per input road at the same index; point `j` is the projection of input point `j`; the width and speed limit are copied |
| Mapper.ScanColumnExact | converter/src/mapper/mod.rs:72-81 | one column scan registers the road in exactly the tiles `ty` in `[lo, hi)` of that column: those tiles are created when absent, keep their location and get the road index appended, and every other tile is unchanged |
| Mapper.ScanRectExact | converter/src/mapper/mod.rs:71-82 | the nested scan does so for exactly the tiles of the half-open rectangle |
| Mapper.ScanColumnEmpty | converter/src/mapper/mod.rs:72 | an empty row range leaves the tiles unchanged |
| Mapper.ScanRectEmpty | converter/src/mapper/mod.rs:71-72 | an empty column or row range leaves the tiles unchanged, so a box within one column or row registers nowhere |
| Mapper.ScanRectRegistersCorner | converter/src/mapper/mod.rs:71-80 | a non-empty rectangle registers the road in its corner tile, created as `Tile::empty` when absent |
| Mapper.TouchKeeps | converter/src/mapper/mod.rs:74-80 | one registration keeps every existing tile's location and earlier indices as a prefix, and preserves index validity and key/location agreement |
| Mapper.ScanColumnKeeps | converter/src/mapper/mod.rs:72-81 | the same for a column scan |
| Mapper.ScanRectKeeps | converter/src/mapper/mod.rs:71-82 | the same for a rectangle scan |
| Mapper.HitsSpec | converter/src/mapper/mod.rs:71-80 | the strictly increasing list of exactly those road indices whose rectangle contains a key |
| Mapper.EastEdgeInsideGrid | converter/src/mapper/mod.rs:66-71 | with longitudes up to 180, every scanned column is below `2^zoom` |
| Mapper.TilesOfValid | converter/src/mapper/mod.rs:22-80 | every stored road index is below the number of roads, and every tile is stored under the key of its own location |
| Mapper.TilesOfCoverage | converter/src/mapper/mod.rs:22-80 | when every scanned column is below `2^zoom`, a key is present exactly when some road's rectangle contains it; its index list is exactly those roads in order, and its location decodes from the key |
| Mapper.TilesOfIndicesIncreasing | converter/src/mapper/mod.rs:22-80 | under the same condition, every tile's indices are strictly increasing, so no duplicates |
| Mapper.RegisterInColumn | converter/src/mapper/mod.rs:72-81 | the inner loop produces exactly the column scan |
| Mapper.MapRoadToTiles | converter/src/mapper/mod.rs:41-83 | `map_road_to_tiles` appends the mapped road at index `len` and registers that index over exactly the road's projected rectangle |
| Mapper.MapToTiles | converter/src/mapper/mod.rs:16-39 | `map_to_tiles` keeps the zoom, maps the roads in order, and registers road `i` under index `i` |
| Render.TileExtentOf | converter/src/render/mod.rs:5-15 | the extent loop yields bounds that hold every tile location; each bound is attained when there is a tile, and with no tile they stay `u32::MAX`, `u32::MAX`, 0, 0 |
| Render.ExtentUnique | converter/src/render/mod.rs:10-15 | the extent is unique, so it does not depend on hash-map iteration order |
| Render.ImageSideSpec | converter/src/render/mod.rs:18-19 | an image side exists exactly when `max - min + 2`, and its product with the resolution, stay in `u32` without underflow; it is then that product |
| Render.NoTilesNoImage | converter/src/render/mod.rs:5-19 | with no tiles the initial bounds underflow, so no image is sized |
| Render.PixelCoordSpec | converter/src/render/mod.rs:37-42 | a pixel coordinate exists exactly when the point is not before the extent's origin and `(tile - min) * tile_res + offset` fits in `u32`; it is then that value cast to `i32` |
| Render.PixelBeforeOrigin | converter/src/render/mod.rs:37-42 | a point in a tile before the extent's first column or row cannot be addressed |
| Render.PixelWithinImage | converter/src/render/mod.rs:18-42 | a point in a tile up to one past the last, with offset below the resolution, has an unsigned address below the image side; for images no wider than 2^31 its `i32` address lies in `[0, side)` |
| Render.DrawRoad | converter/src/render/mod.rs:30-48 | `draw_road`'s loop produces exactly the road's segments, or fails as the source panics |
| Render.RoadSegmentsShape | converter/src/render/mod.rs:31-43 | a drawn road has `len - 1` segments, segment `i` joining the pixels of points `i` and `i + 1` |
| Render.RoadDrawnIff | converter/src/render/mod.rs:31-43 | a road of two or more points is drawn exactly when every point is not before the origin and its address fits in `u32` |
| Render.RenderResult | converter/src/render/mod.rs:4-28 | the renderer computes the unique tile extent and the image size, then the segments of every road in order, failing where the source panics |
| Render.EmptyMapRendersNothing | converter/src/render/mod.rs:5-19 | an empty tile map produces no image |
| Render.RoadBeforeOriginRendersNothing | converter/src/render/mod.rs:23-42 | a road of two or more points with a point in a column or row before the extent's first makes the rendering fail, since `tile_x - offset_x` or `tile_y - offset_y` underflows |
| Render.RoadWestOfTilesExample | converter/src/render/mod.rs:5-42 | with one tile in column 5, the extent is (5, 0, 5, 0), and a road lying in column 2 makes the rendering fail |

## Left out

Foreign libraries and side effects:

- PBF decoding with `osmpbf::IndexedReader` is not modelled, because it is a foreign library. The element stream is the input. Failure to open or decode the file is an error result.
- Progress counting and `println!` output are not modelled, because they are side effects only.
- Allocating the image, `draw_antialiased_line_segment_mut` and `img.save` are not modelled, because they are foreign drawing and file I/O. A rendering is its image size and its segments; the colour is not kept.
- A failing `RgbImage::new` for an image too large to allocate is not modelled.

Floating point:

- IEEE-754 rounding is not modelled. `f64` and `f32` values are exact reals.
  - The rounding of `f32` parsing is not modelled; the parse is an abstract partial function.
  - The rounding of the `* 100.0` in the unreachable `cm` arm is not modelled.
  - The `f64` rounding in `coord_to_tile` is not modelled.
- `asinh(tan(...))` in `to_web_mercator` is an abstract function.
- `Coord::distance_to` is not part of this model. It is haversine trigonometry and has no caller in the core.

Bounds and integer widths:

- MapperMath.CoordToTile: requires zoom < 32, because `2u32.pow` panics above that.
- Mapper.MapToTiles: requires zoom < 32. This also covers the `2u64.pow` limit of zoom < 64. For 32 <= zoom < 64, `map_to_tiles` does not panic on an empty road list, because `2u64.pow` succeeds and the loop never runs. The precondition excludes that case as well, so the model does not describe it.
- Mapper.MapRoadToTiles: requires `max_tiles_x <= 2^32`. The only caller passes `2^zoom`, which meets this.
- Mapper.TilesOfCoverage: assumes every scanned column is below `2^zoom`. `Mapper.TileKeyWraps` shows the key collision when a longitude beyond 180 breaks this.
- MapperMath.RoundTripY: assumes the scaled row is in range. Rows outside it saturate like columns do (`MapperMath.AxisNegative`).
- `usize` is a natural number. The road count cannot overflow.
- A release build wraps `u32` arithmetic around instead of panicking. Only the debug build's panic is modelled.

Other parts of the repository:

- `converter/src/main.rs` is not part of this model, because it is the command-line entry point. Its settings are parameters.
- `converter/src/old/render.rs` is not part of this model, because it is not compiled.
- The PSP application in `src/` is not part of this model, because it is hardware and asynchronous I/O.
- Map objects are not modelled beyond their absence: `read_osm_pbf` always returns an empty object list.
