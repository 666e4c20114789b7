/** The records of the mapping stage (converter/src/mapper/data.rs). */
module MapperData {
  import opened RustPrim

  /** A point of the tile grid: the tile's column and row, and the pixel
      offset inside the tile. */
  datatype GlobalLocation = GlobalLocation(tileX: u32, tileY: u32, x: u32, y: u32)

  /** A road after projection. */
  datatype Road = Road(points: seq<GlobalLocation>, width: F32, speedlimit: u8)

  /** A tile: its (column, row) and the indices of the roads registered in it
      (into `MapTiles.roads`). */
  datatype Tile = Tile(location: (u32, u32), roadIndices: seq<nat>)

  /** `Tile::empty` */
  function EmptyTile(location: (u32, u32)): Tile {
    Tile(location, [])
  }

  /** The mapper's output: tiles by key, and the shared road vector. */
  datatype MapTiles = MapTiles(zoom: u8, tiles: map<u64, Tile>, roads: seq<Road>)
}
