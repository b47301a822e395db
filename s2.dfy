/**
 * The S2 geometry library as seen by the sharder. Its primitives are not part of this
 * model: they are carried as function values in a `Geometry`, so every property below
 * holds for whatever S2 computes.
 */
module S2 {
  /** A cell identifier; S2 orders cells by their 64-bit id. */
  type CellId = int

  /** An S2 level (0 = face cells, 30 = leaf cells). */
  type Level = nat

  datatype LatLng = LatLng(lat: real, lng: real)

  datatype Geometry = Geometry(
    /** `CellID::from(LatLng)`: the leaf cell holding a point. */
    fromLatLng: LatLng -> CellId,
    /** `CellID::parent(level)`. */
    parent: (CellId, Level) -> CellId,
    /** `CellID::all_neighbors(level)`, in the order S2 lists them. */
    allNeighbors: (CellId, Level) -> seq<CellId>,
    /** `CellID::level()`. */
    level: CellId -> Level,
    /** A `RegionCoverer` with min = max level covering the cap of the given radius. */
    covering: (LatLng, nat, Level) -> seq<CellId>)

  /** The cell at `level` that holds `location`: `CellID::from(location).parent(level)`. */
  function CellAt(g: Geometry, location: LatLng, level: Level): CellId
  {
    g.parent(g.fromLatLng(location), level)
  }
}
