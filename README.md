# Location-based sharding: a Dafny model of the build-and-lookup engine

This project models the core of the location-based sharder, which has three steps:

- It lists every S2 cell at a storage level and scores each cell with the number of users in it.
- It cuts the ordered cell list into shards of bounded load. It tries every capacity in a range and keeps the cut whose shard loads vary least.
- It answers which shard holds a cell, a location, or every cell of a covering.

The modules follow the source files:

- `CellLists` (`cell_list.dfy`) covers `src/cell_list.rs`:
  - `gather_cells` is a worklist flood fill over the neighbour relation. It is modelled as a method with a stack and a `seen` map.
  - `CellList::new` seeds the flood fill.
  - `UserCountScorer::score_cell_list` adds one to the cell of each user.
- `OrderedMaps` (`ordered_maps.dfy`) gives the iteration order of a `BTreeMap<CellID, i32>`: its entries by ascending key.
- `Geoshards` (`geoshard.dfy`) covers `GeoshardCollection::new`.
  - `NewCollection` is the source's loop, with its running shard record, its `geo_shards` vector and its `geoshard_count` counter.
  - `NewCollection` is proved equal to `Partition`. `Partition` is a segment-by-segment definition of the same cut.
  - The properties of the cut are proved about `Partition`: its closed form, names, bounds, capacity, load and cell accounting.
- `Builds` (`build.dfy`) covers `GeoshardBuilder::build` and `standard_deviation`.
  - The capacity bounds use the source's `i32` division, which rounds toward zero.
  - `SelectPartition` is the capacity loop. `Build` is the whole pipeline, and the source's panics become errors.
- `Searchers` (`searcher.dfy`) covers `GeoshardSearcher`:
  - the lookup by cell id, a linear scan with a fallback to the last shard;
  - the lookup of every cell of a covering;
  - `From<GeoshardCollection>`.
  - It also proves that lookups in a built collection find the shard whose segment holds the cell.
- `S2` (`s2.dfy`) carries the S2 primitives as function values of a `Geometry`, so every result holds for whatever S2 computes:
  - `CellID::from(LatLng)`, `parent`, `all_neighbors`, `level`;
  - the region covering.
- `Wrappers` (`wrappers.dfy`) holds `Option` and `Result`.

## How the code cuts the cells

The cut follows the code. The code differs from the natural reading "close a shard at the last cell that fits; every cell is in exactly one shard":

- A cell fits when `load + score < capacity`, a strict comparison. A cell that does not fit closes the open shard.
  - The closing cell becomes the shard's `end`, but it is not counted in any `cell_count`.
  - Its score becomes the opening load of the next shard.
  - The next shard's `start` is the cell after it.
- After the last cell, the open shard is emitted only if it counted a cell. Its `start` and `end` are both set to the last key, and its count gains one.
  - So the cells of the trailing shard other than the last are inside no shard's range.
  - When the last cell closes a shard, that cell's score is carried to a shard that is never emitted.
- A lookup therefore does not always return the shard whose load holds a cell's users.
  - A closing cell is found in the shard it ends, but its users are in the load of the next shard, which starts after it.
  - The users of a last cell that closes a shard are in no load, though a lookup finds that cell in the last shard.
  - With three cells holding one user each and capacity 2, cell 2 is found in shard 0 while its user is in shard 1's load, and cell 3's user is in no load.
- The first shard starts at the smallest key only when some cell closes a shard, or when there is a single cell. Otherwise the only shard is the collapsed trailing one, which sits on the largest key.
- With no user every score is zero, and the only candidate capacity is zero. No cell fits, so every cell becomes a shard of its own: for any non-zero shard-count bounds, the build yields as many shards as cells.
- The shard-count bounds are not validated. A zero bound fails on the division by zero. Otherwise the capacity range `load / max ..= load / min`, rounded toward zero, is simply tried:
  - a minimum of -10 and a maximum of -1 give the negative range `-load ..= -(load / 10)`;
  - inverted bounds usually give an empty range, and the build fails on the `unwrap` of no cut (a minimum of 100 and a maximum of 40 with 100 users give `2 ..= 1`);
  - with no user the range is `0 ..= 0` for any non-zero bounds.

## Model

| member | source | states |
|---|---|---|
| CellLists.GatherCells | src/cell_list.rs:67-77 | The map contains the seed. A cell is a key exactly when it is reachable from the seed through `all_neighbors` at the storage level. The key set is closed under neighbours. Every value is 0. Each cell is inserted once: the insertion order has no repeats and holds exactly the keys. |
| CellLists.ClosedSetHoldsReachable | src/cell_list.rs:70-76 | Any neighbour-closed set that holds the seed holds every reachable cell. So the gathered key set is the reachable set, whatever the stack order. |
| CellLists.NewCellList | src/cell_list.rs:48-55 | Records the storage level. Its keys are exactly the cells reachable from the parent, at that level, of the cell holding (0, 0). All scores are 0. |
| CellLists.ScoreCellList | src/cell_list.rs:25-36 | Succeeds exactly when every user's cell is a key. Then the level and key set are unchanged, and each key's score grows by the number of users in that cell. Otherwise the error names the first user whose cell is missing (the `unwrap` panic). |
| OrderedMaps.Entries | src/geoshard.rs:193 | The map's iteration: one entry per key, keys strictly ascending, each key paired with its value, and every key present. |
| OrderedMaps.SortedKeys | src/geoshard.rs:193 | The keys in strictly ascending order, each exactly once. |
| Geoshards.NewCollection | src/geoshard.rs:181-223 | The loop returns exactly `Partition(capacity, cells)` for any non-empty ordered cell list. |
| Geoshards.Partition | src/geoshard.rs:182-222 | A non-empty cell list gives at least one and at most `|cells|` shards. |
| Geoshards.WalkFit | src/geoshard.rs:194-199 | A cell that fits is added to the open shard's load and count, and the rest of the cut still completes the shards done so far. |
| Geoshards.WalkClose | src/geoshard.rs:200-211 | A cell that does not fit becomes the open shard's `end`, and that shard is pushed. The next shard has the next index and the closing cell's level, no start, count 0, and the closing cell's score as its load. |
| Geoshards.WalkEnd | src/geoshard.rs:214-222 | After the last cell, the cut is the pushed shards, plus the open shard if its count is not 0. That shard gets start and end on the last key and its count plus one. |
| Geoshards.FirstCloseFits | src/geoshard.rs:197-199 | Every cell before the closing cell passes the strict test `load + score < capacity`, and the closing cell fails it. |
| Geoshards.ClosersGreedy | src/geoshard.rs:197-210 | The closing cells of the cut are exactly the greedy ones. Inside each segment every cell before its closing cell fits, the closing cell does not, and after the last closing cell every cell fits. |
| Geoshards.PartitionShape | src/geoshard.rs:181-223 | The cut in closed form: one shard per closing cell (`ClosedShard`), plus the trailing shard (`TrailingShard`) exactly when cells are left after the last closing cell. |
| Geoshards.PartitionSize | src/geoshard.rs:193-220 | There are as many shards as closing cells, plus one exactly when cells are left after the last closing cell. |
| Geoshards.PartitionNames | src/geoshard.rs:184-211 | Shard `m` is named `geoshard_user_index_m`, so names are consecutive in emission order and pairwise distinct. |
| Geoshards.ShardNameInjective | src/geoshard.rs:204 | Distinct shard counters give distinct names. |
| Geoshards.ClosedShardBounds | src/geoshard.rs:194-201 | Shard `m` runs from the cell after the previous closing cell (the first cell for `m = 0`) to its own closing cell, so `start <= end`. |
| Geoshards.TrailingShardBounds | src/geoshard.rs:214-219 | The trailing shard, when present, has start and end both on the last key. |
| Geoshards.PartitionBounds | src/geoshard.rs:186-219 | On ascending cells every shard has both bounds with `start <= end`. Each bound is the cell given by the closed form. Each shard starts strictly after the previous one ends. |
| Geoshards.PartitionCapacity | src/geoshard.rs:197-199 | Every shard that counted a cell has a load below the capacity. |
| Geoshards.PartitionLoad | src/geoshard.rs:197-219 | The shard loads add up to the total score, less the last cell's score when the last cell closes a shard. |
| Geoshards.PartitionCount | src/geoshard.rs:197-219 | The shard counts add up to the cells less the closing cells, plus one when there is a trailing shard. |
| Geoshards.PartitionNothingFits | src/geoshard.rs:197-211 | With capacity at most 0 and no negative score, every cell is a shard of its own: there are `|cells|` shards, each with count 0 and both bounds on its cell. |
| Builds.VarianceNonNegative | src/geoshard.rs:226-241 | The variance of the shard loads is never negative. |
| Builds.VarianceZeroIffUniform | src/geoshard.rs:226-241 | The variance is zero exactly when all shard loads are equal. |
| Builds.SpreadZero | src/geoshard.rs:233-238 | The scaled sum of squared deviations is zero exactly when every value times the count equals the total. |
| Builds.TruncDivRemainder | src/geoshard.rs:112-113 | Division rounds toward zero: the remainder is smaller than the divisor in magnitude and has the sign of the dividend. |
| Builds.TruncDivNonNegative | src/geoshard.rs:112-113 | On a non-negative total and a positive count it agrees with floor division. |
| Builds.CapacityRangeExamples | src/geoshard.rs:112-113 | The bounds are used as given: with bounds -10 and -1 the range is `-load ..= -(load / 10)`, non-empty and negative; with 100 users, bounds 100 and 40 give the empty range `2 ..= 1`; with no user both ends are 0. |
| Builds.SumLoads | src/geoshard.rs:226-241 | The loads that the variance is taken over add up to the collection's total load. |
| Builds.TotalLoadIsUserCount | src/geoshard.rs:109 | When every user's cell is listed, the total load of the scored cells is the number of users. |
| Builds.SelectPartition | src/geoshard.rs:115-128 | No result exactly when the capacity range `lo..=hi` is empty. Otherwise the result is the cut at the first capacity whose variance is strictly below that of every earlier capacity and no greater than any later one. |
| Builds.FirstMinimalUnique | src/geoshard.rs:119-126 | At most one capacity of the range is the first minimal one, so the selected cut is determined. |
| Builds.Build | src/geoshard.rs:98-129 | It fails on a user outside the listed cells exactly when some user's cell is missing, naming the first. It fails on a zero shard count exactly when one is zero, and on an empty range exactly when `|users| / max > |users| / min` (rounded toward zero). Otherwise it returns the first minimal cut of the scored cell list over that range. |
| Searchers.FromCollection | src/geoshard.rs:307-316 | An empty collection has no searcher. Otherwise the searcher keeps the collection and the first shard's storage level. |
| Searchers.GetShardFromCellId | src/geoshard.rs:269-279 | The result is the first shard containing the id, every earlier shard having both bounds and not containing it. Failing that, it is the last shard. It is an error exactly when the collection is empty, or when a shard scanned first lacks a bound. |
| Searchers.LookupTotal | src/geoshard.rs:269-279 | On a non-empty collection whose shards all have bounds, the lookup never fails. |
| Searchers.LookupAll | src/geoshard.rs:282-287 | It succeeds exactly when every lookup succeeds. The result is then one shard per covering cell, in order, with duplicates kept. Otherwise the error is that of the first failing lookup. |
| Searchers.LookupFindsSegment | src/geoshard.rs:269-279 | In a built collection, a cell in the segment of shard `m` (after the previous closing cell, up to its own) is found in shard `m`. |
| Searchers.ClosingCellCountedInNextShard | src/geoshard.rs:200-211 | In a built collection, the closing cell of shard `m` is found in shard `m`, while the next shard starts after it and its load is that cell's score plus the scores of the cells of its own segment. |
| Searchers.LastClosingCellInNoLoad | src/geoshard.rs:200-222 | When the last cell closes a shard, there is no trailing shard, a lookup of that cell finds the last shard, and the loads add up to the total score less that cell's score. |
| Searchers.ClosingCellExample | src/geoshard.rs:193-222 | The cut of three one-user cells at capacity 2 is two shards, 1..2 with count 1 and load 1 and 3..3 with count 0 and load 1. Cell 2 is found in shard 0, cell 3 in shard 1, and the loads add up to 2. |
| Searchers.BuiltLookupsSucceed | src/geoshard.rs:269-287 | In a built collection every lookup by cell id succeeds, and so does every radius lookup. |

## Left out

- S2 geometry is not part of this model. `CellID::from(LatLng)`, `parent`, `all_neighbors`, `level` and the `Cap`/`RegionCoverer` covering (src/geoshard.rs:290-304) are function values of `S2.Geometry`.
  - `to_token`/`from_token` are taken to be a bijection, so shards store cell ids.
  - The conversion of the radius through `EARTH_RADIUS` happens inside the covering.
- Builds.Variance: the source computes the standard deviation in `f64`. The model uses the exact rational variance. The square root is increasing, so both order candidate cuts alike. Floating-point rounding, including ties that rounding would break or create, is not modelled, nor is the value 2.9832867780352594 that the source expects for its sample collection.
- Builds.Build: `i32` overflow of scores and of `total_load` is excluded by requiring at most `2^31 - 1` users. The total load is proved equal to the user count.
- Geoshards.NewCollection, Geoshards.Partition and CellLists.ScoreCellList: scores and loads are unbounded integers. Only `Build` carries the user bound, so these members, called on their own with large scores or many users, do not model the `i32` overflow of `shard.cell_score + cell_score` (src/geoshard.rs:197-198) or of `*score += 1` (src/cell_list.rs:33).
- Geoshards.NewCollection, Geoshards.Partition, Geoshards.PartitionNames, Geoshards.PartitionCount and Builds.Build: the `i32` counters `cell_count` (src/geoshard.rs:199, 218) and `geoshard_count` (src/geoshard.rs:192, 211) are unbounded integers here. The user bound on `Build` limits scores and loads, not these counts. A storage level of 15 or more has over `2^31 - 1` cells. There, with no user, the source's shard counter overflows: it panics in a debug build and wraps to repeated names in a release build. A shard counting that many cells overflows `cell_count` the same way. The model keeps counting, so `PartitionNames` proves distinct names where the source would not produce them.
- Builds.Build: only `UserCountScorer` is modelled. The `CellScorer` trait and the `RandomCellScore` test scorer are left out.
- CellLists.GatherCells: S2's cell set at a level is finite and closed under neighbours. The model receives it as a ghost `universe` parameter, which proves the loop terminates. It does not change what the loop computes.
- Concrete cell counts, such as 393216 cells at level 8, depend on S2's real neighbour graph and are not modelled.
- `get_shard_from_location`, `get_cell_id_from_location`, `cell_ids_from_radius` and `get_shards_from_radius` are modelled only as compositions (`GetShardFromLocation`, `GetCellIdFromLocation`, `CellIdsFromRadius`, `GetShardsFromRadius`). They carry no contract of their own beyond those of the lookups they call.
- `get_shard_for_user` is left out with the `User` trait: a user is modelled by its location, so it is `GetShardFromLocation` of that location.
- Lookups return the position of the shard in the collection rather than a reference to it.
- The shard name is represented by its counter. `Name` gives the string `geoshard_user_index_<n>`.
- Serde (`TryFrom<&str>`, derives), `Arc` sharing and `Clone` of the searcher, builder constructors, the `User` trait, the `ll!` macro and module declarations are not modelled. They are I/O or plumbing with no behaviour of their own.
