/**
 * `GeoshardSearcher`: find the shard that holds a location, a cell, or every cell of a covering.
 */
module Searchers {
  import opened Wrappers
  import opened S2
  import opened OrderedMaps
  import opened Geoshards

  /** `GeoshardSearcher`: the storage level and the collection it searches. */
  datatype GeoshardSearcher = GeoshardSearcher(storageLevel: Level, shards: seq<Geoshard>)

  /**
   * The panics of a lookup: the bounds of shard `index` are unwrapped while one is missing, or
   * the collection is empty when the scan falls back to its last shard.
   */
  datatype LookupError = UnboundedShard(index: nat) | NoShards

  predicate Bounded(shard: Geoshard)
  {
    shard.start.Some? && shard.end.Some?
  }

  /** `cell_id >= start && cell_id <= end`. */
  predicate Within(shard: Geoshard, cellId: CellId)
    requires Bounded(shard)
  {
    shard.start.value <= cellId <= shard.end.value
  }

  /** Every shard before position `i` has both bounds and does not hold `cellId`. */
  predicate PassedOver(shards: seq<Geoshard>, cellId: CellId, i: nat)
    requires i <= |shards|
  {
    forall k :: 0 <= k < i ==> Bounded(shards[k]) && !Within(shards[k], cellId)
  }

  /**
   * `From<GeoshardCollection>`: the searcher takes the storage level of the first shard. An empty
   * collection panics on `first().unwrap()`; that is `None`.
   */
  function FromCollection(shards: seq<Geoshard>): (r: Option<GeoshardSearcher>)
    ensures r.None? <==> shards == []
    ensures r.Some? ==> r.value.shards == shards && r.value.storageLevel == shards[0].storageLevel
  {
    if shards == [] then None else Some(GeoshardSearcher(shards[0].storageLevel, shards))
  }

  /** The scan of `get_shard_from_cell_id` from position `i` on. */
  function ScanFrom(shards: seq<Geoshard>, cellId: CellId, i: nat): Result<nat, LookupError>
    requires i <= |shards|
    decreases |shards| - i
  {
    if i == |shards| then
      if shards == [] then Err(NoShards) else Ok(|shards| - 1)
    else if !Bounded(shards[i]) then Err(UnboundedShard(i))
    else if Within(shards[i], cellId) then Ok(i)
    else ScanFrom(shards, cellId, i + 1)
  }

  lemma {:induction false} ScanMeaning(shards: seq<Geoshard>, cellId: CellId, i: nat)
    requires i <= |shards| && PassedOver(shards, cellId, i)
    ensures var r := ScanFrom(shards, cellId, i);
            && (r.Ok? ==>
                  && r.value < |shards|
                  && PassedOver(shards, cellId, r.value)
                  && Bounded(shards[r.value])
                  && (Within(shards[r.value], cellId) || r.value == |shards| - 1))
            && (r == Err(NoShards) <==> shards == [])
            && (r.Err? && r.error.UnboundedShard? ==>
                  && r.error.index < |shards|
                  && PassedOver(shards, cellId, r.error.index)
                  && !Bounded(shards[r.error.index]))
    decreases |shards| - i
  {
    if i < |shards| && Bounded(shards[i]) && !Within(shards[i], cellId) {
      ScanMeaning(shards, cellId, i + 1);
    }
  }

  /**
   * `get_shard_from_cell_id`: the position of the first shard whose inclusive bounds hold
   * `cellId`; when none does, the last shard. A shard reached without bounds, or an empty
   * collection, panics in the source and is an error here.
   */
  function GetShardFromCellId(s: GeoshardSearcher, cellId: CellId): (r: Result<nat, LookupError>)
    ensures r.Ok? ==>
              && r.value < |s.shards|
              && PassedOver(s.shards, cellId, r.value)
              && Bounded(s.shards[r.value])
              && (Within(s.shards[r.value], cellId) || r.value == |s.shards| - 1)
    ensures r == Err(NoShards) <==> s.shards == []
    ensures r.Err? && r.error.UnboundedShard? ==>
              && r.error.index < |s.shards|
              && PassedOver(s.shards, cellId, r.error.index)
              && !Bounded(s.shards[r.error.index])
  {
    ScanMeaning(s.shards, cellId, 0);
    ScanFrom(s.shards, cellId, 0)
  }

  /** A scan that passes over every shard before `m` and can stop at `m` returns `m`. */
  lemma {:induction false} ScanStopsAt(shards: seq<Geoshard>, cellId: CellId, i: nat, m: nat)
    requires i <= m < |shards|
    requires PassedOver(shards, cellId, m) && Bounded(shards[m])
    requires Within(shards[m], cellId) || m == |shards| - 1
    ensures ScanFrom(shards, cellId, i) == Ok(m)
    decreases m - i
  {
    if i < m {
      ScanStopsAt(shards, cellId, i + 1, m);
    }
  }

  lemma {:induction false} ScanTotal(shards: seq<Geoshard>, cellId: CellId, i: nat)
    requires i <= |shards| && shards != []
    requires forall k :: i <= k < |shards| ==> Bounded(shards[k])
    ensures ScanFrom(shards, cellId, i).Ok?
    decreases |shards| - i
  {
    if i < |shards| && !Within(shards[i], cellId) {
      ScanTotal(shards, cellId, i + 1);
    }
  }

  /** A lookup never fails on a non-empty collection whose shards all have bounds. */
  lemma LookupTotal(s: GeoshardSearcher, cellId: CellId)
    requires s.shards != [] && forall k :: 0 <= k < |s.shards| ==> Bounded(s.shards[k])
    ensures GetShardFromCellId(s, cellId).Ok?
  {
    ScanTotal(s.shards, cellId, 0);
  }

  /** `get_cell_id_from_location`: the cell at the storage level holding `location`. */
  function GetCellIdFromLocation(s: GeoshardSearcher, g: Geometry, location: LatLng): CellId
  {
    CellAt(g, location, s.storageLevel)
  }

  /** `get_shard_from_location`: the lookup of the cell holding `location`. */
  function GetShardFromLocation(s: GeoshardSearcher, g: Geometry, location: LatLng): Result<nat, LookupError>
  {
    GetShardFromCellId(s, GetCellIdFromLocation(s, g, location))
  }

  /** `cell_ids_from_radius`: the cells at the storage level covering the cap around `location`. */
  function CellIdsFromRadius(s: GeoshardSearcher, g: Geometry, location: LatLng, radius: nat): seq<CellId>
  {
    g.covering(location, radius, s.storageLevel)
  }

  /**
   * The lookup of each of `cellIds`, in order, duplicates kept. The first lookup that panics
   * ends the collection; that is its error.
   */
  function LookupAll(s: GeoshardSearcher, cellIds: seq<CellId>): (r: Result<seq<nat>, LookupError>)
    ensures r.Ok? <==> forall k :: 0 <= k < |cellIds| ==> GetShardFromCellId(s, cellIds[k]).Ok?
    ensures r.Ok? ==>
              && |r.value| == |cellIds|
              && forall k :: 0 <= k < |cellIds| ==> r.value[k] == GetShardFromCellId(s, cellIds[k]).value
    ensures r.Err? ==>
              exists k :: 0 <= k < |cellIds| && GetShardFromCellId(s, cellIds[k]) == Err(r.error)
                && forall j :: 0 <= j < k ==> GetShardFromCellId(s, cellIds[j]).Ok?
  {
    if cellIds == [] then Ok([])
    else
      var first := GetShardFromCellId(s, cellIds[0]);
      if first.Err? then Err(first.error)
      else
        var rest := LookupAll(s, cellIds[1..]);
        if rest.Err? then
          var k :| 0 <= k < |cellIds[1..]| && GetShardFromCellId(s, cellIds[1..][k]) == Err(rest.error)
                   && forall j :: 0 <= j < k ==> GetShardFromCellId(s, cellIds[1..][j]).Ok?;
          assert GetShardFromCellId(s, cellIds[k + 1]) == Err(rest.error);
          assert forall j :: 0 <= j < k + 1 ==> GetShardFromCellId(s, cellIds[j]).Ok? by {
            forall j | 0 <= j < k + 1
              ensures GetShardFromCellId(s, cellIds[j]).Ok?
            {
              if j > 0 {
                assert cellIds[j] == cellIds[1..][j - 1];
              }
            }
          }
          Err(rest.error)
        else
          Ok([first.value] + rest.value)
  }

  /** `get_shards_from_radius`: one shard per cell of the covering, in the covering's order. */
  function GetShardsFromRadius(s: GeoshardSearcher, g: Geometry, location: LatLng, radius: nat)
    : Result<seq<nat>, LookupError>
  {
    LookupAll(s, CellIdsFromRadius(s, g, location, radius))
  }

  // ---------------------------------------------------------------------------
  // Lookups in a built collection
  // ---------------------------------------------------------------------------

  lemma AscendingKeys(cells: ScoredCells, a: nat, b: nat)
    requires Ascending(cells) && a <= b < |cells|
    ensures cells[a].0 <= cells[b].0
  {
  }

  /** Every closing cell before segment `m` comes before each cell of that segment. */
  lemma ClosersBefore(closers: seq<nat>, n: nat, k: nat, m: nat, i: nat)
    requires ValidClosers(closers, 0, n) && k < m <= |closers| && SegStart(closers, 0, m) <= i
    ensures closers[k] < i
  {
    if k < m - 1 {
      ClosersAscending(closers, 0, n, k, m - 1);
    }
  }

  /** The scan over shards with the bounds of a cut stops at the shard of cell `i`'s segment. */
  lemma ScanFindsSegment(cells: ScoredCells, closers: seq<nat>, p: seq<Geoshard>, i: nat, m: nat)
    requires |cells| > 0 && Ascending(cells) && i < |cells|
    requires ValidClosers(closers, 0, |cells|) && BoundsMatch(cells, closers, p)
    requires m <= |closers| && SegStart(closers, 0, m) <= i && (m < |closers| ==> i <= closers[m])
    ensures ScanFrom(p, cells[i].0, 0) == Ok(m)
  {
    var c := cells[i].0;
    assert |closers| <= |p| && (|closers| < |p| <==> SegStart(closers, 0, |closers|) < |cells|);
    if m == |closers| {
      assert SegStart(closers, 0, m) < |cells|;
    }
    assert m < |p|;
    forall k | 0 <= k < m
      ensures Bounded(p[k]) && !Within(p[k], c)
    {
      ClosersBefore(closers, |cells|, k, m, i);
      assert p[k].end == Some(cells[closers[k]].0);
      assert cells[closers[k]].0 < c;
    }
    if m < |closers| {
      var start := SegStart(closers, 0, m);
      assert p[m].start == Some(cells[start].0) && p[m].end == Some(cells[closers[m]].0);
      AscendingKeys(cells, start, i);
      AscendingKeys(cells, i, closers[m]);
    }
    ScanStopsAt(p, c, 0, m);
  }

  /**
   * In the cut of an ascending cell list, cell `i` of the segment that closes at `closers[m]`
   * (or of the trailing run of cells, `m == |closers|`) is found in shard `m`: the shards before
   * it all end below the cell, and shard `m` holds it or is the last shard.
   */
  lemma LookupFindsSegment(g: Geometry, capacity: int, cells: ScoredCells, s: GeoshardSearcher, i: nat, m: nat)
    requires |cells| > 0 && Ascending(cells) && i < |cells|
    requires s.shards == Partition(g, capacity, cells)
    requires var closers := Closers(cells, capacity);
             && m <= |closers|
             && SegStart(closers, 0, m) <= i
             && (m < |closers| ==> i <= closers[m])
    ensures GetShardFromCellId(s, cells[i].0) == Ok(m)
  {
    PartitionBounds(g, capacity, cells);
    ScanFindsSegment(cells, Closers(cells, capacity), s.shards, i, m);
  }

  /** Every lookup in a collection built from an ascending cell list succeeds, and so does every radius query. */
  lemma BuiltLookupsSucceed(g: Geometry, capacity: int, cells: ScoredCells, s: GeoshardSearcher,
                            location: LatLng, radius: nat)
    requires |cells| > 0 && Ascending(cells)
    requires s.shards == Partition(g, capacity, cells)
    ensures forall c :: GetShardFromCellId(s, c).Ok?
    ensures GetShardsFromRadius(s, g, location, radius).Ok?
  {
    BuiltShardsBounded(g, capacity, cells);
    forall c
      ensures GetShardFromCellId(s, c).Ok?
    {
      LookupTotal(s, c);
    }
  }

  /** Every shard of a built collection has both bounds. */
  lemma BuiltShardsBounded(g: Geometry, capacity: int, cells: ScoredCells)
    requires |cells| > 0 && Ascending(cells)
    ensures var p := Partition(g, capacity, cells);
            p != [] && forall k :: 0 <= k < |p| ==> Bounded(p[k])
  {
    PartitionBounds(g, capacity, cells);
  }

  // ---------------------------------------------------------------------------
  // Where the users of a closing cell are counted
  // ---------------------------------------------------------------------------

  /**
   * The closing cell of shard `m` is the `end` of shard `m`, so a lookup of it finds shard `m`;
   * yet its score is the opening load of shard `m + 1`, which starts after it. The shard a lookup
   * returns for a closing cell is not the one whose load holds that cell's users.
   */
  lemma ClosingCellCountedInNextShard(g: Geometry, capacity: int, cells: ScoredCells, s: GeoshardSearcher, m: nat)
    requires |cells| > 0 && Ascending(cells)
    requires s.shards == Partition(g, capacity, cells)
    requires m < |Closers(cells, capacity)| && m + 1 < |s.shards|
    ensures var closers := Closers(cells, capacity);
            var c := closers[m];
            var next := if m + 1 < |closers| then closers[m + 1] else |cells|;
            && c < next <= |cells|
            && GetShardFromCellId(s, cells[c].0) == Ok(m)
            && s.shards[m + 1].start.Some? && cells[c].0 < s.shards[m + 1].start.value
            && s.shards[m + 1].cellScore == cells[c].1 + ScoreSum(cells, c + 1, next)
  {
    var closers := Closers(cells, capacity);
    PartitionBounds(g, capacity, cells);
    ValidAt(closers, 0, |cells|, m);
    LookupFindsSegment(g, capacity, cells, s, closers[m], m);
    NextShardLoad(g, capacity, cells, m);
  }

  /** The shard after closed shard `m` opens with the closing cell's score and adds its own segment's. */
  lemma NextShardLoad(g: Geometry, capacity: int, cells: ScoredCells, m: nat)
    requires |cells| > 0
    requires m < |Closers(cells, capacity)| && m + 1 < |Partition(g, capacity, cells)|
    ensures var closers := Closers(cells, capacity);
            var c := closers[m];
            var next := if m + 1 < |closers| then closers[m + 1] else |cells|;
            && c < next <= |cells|
            && Partition(g, capacity, cells)[m + 1].cellScore == cells[c].1 + ScoreSum(cells, c + 1, next)
  {
    var closers := Closers(cells, capacity);
    var level := g.level(cells[0].0);
    PartitionShape(g, capacity, cells);
    if m + 1 < |closers| {
      ValidAt(closers, 0, |cells|, m + 1);
      assert Partition(g, capacity, cells)[m + 1] == ClosedShard(g, cells, closers, 0, 0, 0, level, m + 1);
    } else {
      assert Partition(g, capacity, cells)[m + 1] == TrailingShard(g, cells, closers, 0, 0, 0, level);
    }
  }

  /**
   * When the last cell closes a shard, a lookup of it finds the last shard, but its score is in no
   * shard's load: the loads add up to the total score less that cell's.
   */
  lemma LastClosingCellInNoLoad(g: Geometry, capacity: int, cells: ScoredCells, s: GeoshardSearcher)
    requires |cells| > 0 && Ascending(cells)
    requires s.shards == Partition(g, capacity, cells)
    requires var closers := Closers(cells, capacity);
             |closers| > 0 && closers[|closers| - 1] == |cells| - 1
    ensures |s.shards| == |Closers(cells, capacity)|
    ensures GetShardFromCellId(s, cells[|cells| - 1].0) == Ok(|s.shards| - 1)
    ensures TotalLoad(s.shards) == ScoreSum(cells, 0, |cells|) - cells[|cells| - 1].1
  {
    var closers := Closers(cells, capacity);
    PartitionShape(g, capacity, cells);
    PartitionLoad(g, capacity, cells);
    ValidAt(closers, 0, |cells|, |closers| - 1);
    LookupFindsSegment(g, capacity, cells, s, |cells| - 1, |closers| - 1);
  }

  /**
   * Three cells with one user each, cut at capacity 2: the first cell fits, the second closes
   * shard 0 and seeds shard 1, and the third closes shard 1 and is lost. Cell 2 is found in
   * shard 0 while its user is in shard 1's load; cell 3's user is in no load.
   */
  lemma ClosingCellExample(g: Geometry)
    ensures var cells := [(1, 1), (2, 1), (3, 1)];
            var p := Partition(g, 2, cells);
            var s := GeoshardSearcher(0, p);
            && p == [Geoshard(0, g.level(1), Some(1), Some(2), 1, 1),
                     Geoshard(1, g.level(2), Some(3), Some(3), 0, 1)]
            && GetShardFromCellId(s, 2) == Ok(0)
            && GetShardFromCellId(s, 3) == Ok(1)
            && TotalLoad(p) == 2
  {
    var cells: ScoredCells := [(1, 1), (2, 1), (3, 1)];
    assert FirstClose(cells, 2, 3, 1, 3) == 3;
    assert Segments(g, cells, 2, 3, 1, 2, g.level(3)) == [];
    assert FirstClose(cells, 2, 2, 1, 2) == 2;
    assert FirstClose(cells, 2, 0, 0, 1) == 1;
    assert FirstClose(cells, 2, 0, 0, 0) == 1;
    var tail := Segments(g, cells, 2, 2, 1, 1, g.level(2));
    assert tail == [Geoshard(1, g.level(2), Some(3), Some(3), 0, 1)];
    var p := Partition(g, 2, cells);
    assert p == [Geoshard(0, g.level(1), Some(1), Some(2), 1, 1)] + tail;
    assert TotalLoad(p) == 1 + TotalLoad(tail);
  }
}
