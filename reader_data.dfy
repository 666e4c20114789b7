/** The records of the ingestion stage (converter/src/reader/data.rs). */
module ReaderData {
  import opened RustPrim

  /** A geographic point in degrees. The source stores `f64`s; they are
      modelled as reals, so NaN coordinates do not arise. */
  datatype Coord = Coord(lat: real, lon: real) {

    /** `Coord::min_each`: the componentwise minimum. */
    function MinEach(other: Coord): (r: Coord)
      ensures r.lat <= lat && r.lat <= other.lat && (r.lat == lat || r.lat == other.lat)
      ensures r.lon <= lon && r.lon <= other.lon && (r.lon == lon || r.lon == other.lon)
    {
      Coord(Min(lat, other.lat), Min(lon, other.lon))
    }

    /** `Coord::max_each`: the componentwise maximum. */
    function MaxEach(other: Coord): (r: Coord)
      ensures r.lat >= lat && r.lat >= other.lat && (r.lat == lat || r.lat == other.lat)
      ensures r.lon >= lon && r.lon >= other.lon && (r.lon == lon || r.lon == other.lon)
    {
      Coord(Max(lat, other.lat), Max(lon, other.lon))
    }
  }

  function Min(a: real, b: real): real { if a <= b then a else b }
  function Max(a: real, b: real): real { if a >= b then a else b }

  /** `a` lies south-west of (or on) `b`: componentwise `<=`. */
  predicate Le(a: Coord, b: Coord) {
    a.lat <= b.lat && a.lon <= b.lon
  }

  lemma MinLeMax(a: Coord, b: Coord)
    ensures Le(a.MinEach(b), a) && Le(a.MinEach(b), b)
    ensures Le(a, a.MaxEach(b)) && Le(b, a.MaxEach(b))
    ensures Le(a.MinEach(b), a.MaxEach(b))
  {
  }

  lemma MinMaxCommutative(a: Coord, b: Coord)
    ensures a.MinEach(b) == b.MinEach(a)
    ensures a.MaxEach(b) == b.MaxEach(a)
  {
  }

  lemma MinMaxAssociative(a: Coord, b: Coord, c: Coord)
    ensures a.MinEach(b).MinEach(c) == a.MinEach(b.MinEach(c))
    ensures a.MaxEach(b).MaxEach(c) == a.MaxEach(b.MaxEach(c))
  {
  }

  lemma MinMaxIdempotent(a: Coord)
    ensures a.MinEach(a) == a && a.MaxEach(a) == a
  {
  }

  /** An entry of the node table. */
  datatype Node = Node(id: i64, coord: Coord)

  /** A way accepted as a road, with its node references not yet resolved. */
  datatype RoadRaw = RoadRaw(id: i64, nodes: seq<i64>, kind: string, width: F32, speedlimit: u8)

  /** A resolved road: `extent` is (min, max); `width` is in metres. */
  datatype Road = Road(extent: (Coord, Coord), points: seq<Coord>, width: F32, speedlimit: u8)

  datatype ObjectKind = Generic | Grass | Water | Building

  datatype Object = Object(kind: ObjectKind, shape: seq<Coord>)

  /** The result of ingestion: `extent` is the (min, max) over every node seen. */
  datatype Map = Map(roads: seq<Road>, objects: seq<Object>, extent: (Coord, Coord))
}
