/**
 * `GeoshardBuilder::build`: score the cell list, then cut it once per candidate capacity and keep
 * the first cut whose shard loads spread least.
 */
module Builds {
  import opened Wrappers
  import opened S2
  import opened OrderedMaps
  import opened CellLists
  import opened Geoshards

  /** Largest `i32`, the type of scores, loads and shard counts in the builder. */
  const I32Max: int := 0x7fff_ffff

  // ---------------------------------------------------------------------------
  // GeoshardCollection::standard_deviation, as the exact variance
  // ---------------------------------------------------------------------------

  /** The shard loads, in collection order. */
  function Loads(shards: seq<Geoshard>): (r: seq<int>)
    ensures |r| == |shards|
    ensures forall i :: 0 <= i < |r| ==> r[i] == shards[i].cellScore
  {
    seq(|shards|, i requires 0 <= i < |shards| => shards[i].cellScore)
  }

  function Sum(xs: seq<int>): int
  {
    if xs == [] then 0 else xs[0] + Sum(xs[1..])
  }

  /** The sum of the loads is the collection's total load. */
  lemma {:induction false} SumLoads(shards: seq<Geoshard>)
    ensures Sum(Loads(shards)) == TotalLoad(shards)
  {
    if shards != [] {
      assert Loads(shards)[1..] == Loads(shards[1..]);
      SumLoads(shards[1..]);
    }
  }

  function Square(x: int): nat
  {
    if x < 0 then (-x) * (-x) else x * x
  }

  /**
   * The squared distances of `xs` from the mean `total / n`, each scaled by `n * n` so that they
   * stay integers: the sum of `(n * x - total)^2`.
   */
  function Spread(xs: seq<int>, n: int, total: int): nat
  {
    if xs == [] then 0 else Square(n * xs[0] - total) + Spread(xs[1..], n, total)
  }

  /**
   * The population variance of `xs`, the mean squared distance from the mean: with `n` values
   * adding up to `total`, the sum of `(x - total / n)^2` over `n`, which is `Spread` over `n^3`.
   * The source compares the square root of it; the square root is increasing on non-negative
   * values, so both order candidate cuts alike.
   */
  function Variance(xs: seq<int>): (v: real)
    requires |xs| > 0
  {
    var n := |xs|;
    Spread(xs, n, Sum(xs)) as real / (n * n * n) as real
  }

  /** Every value is equal to the first. */
  predicate Uniform(xs: seq<int>)
  {
    forall i :: 0 <= i < |xs| ==> xs[i] == xs[0]
  }

  lemma VarianceNonNegative(xs: seq<int>)
    requires |xs| > 0
    ensures Variance(xs) >= 0.0
  {
    var n := |xs|;
    assert n * n * n > 0;
  }

  /** Values all equal to `c` add up to `|xs|` times `c`. */
  lemma {:induction false} SumConstant(xs: seq<int>, c: int)
    requires forall i :: 0 <= i < |xs| ==> xs[i] == c
    ensures Sum(xs) == |xs| * c
  {
    if xs != [] {
      SumConstant(xs[1..], c);
    }
  }

  /** The spread is zero exactly when every value sits at the mean: `n * x == total` for all. */
  lemma {:induction false} SpreadZero(xs: seq<int>, n: int, total: int)
    ensures Spread(xs, n, total) == 0 <==> forall i :: 0 <= i < |xs| ==> n * xs[i] == total
  {
    if xs != [] {
      SpreadZero(xs[1..], n, total);
      var d := n * xs[0] - total;
      if d != 0 {
        assert Square(d) > 0;
      }
      if forall i :: 0 <= i < |xs[1..]| ==> n * xs[1..][i] == total {
        forall i | 0 <= i < |xs| && d == 0
          ensures n * xs[i] == total
        {
          if i > 0 {
            assert xs[i] == xs[1..][i - 1];
          }
        }
      } else {
        var i :| 0 <= i < |xs[1..]| && n * xs[1..][i] != total;
        assert xs[1..][i] == xs[i + 1];
      }
    }
  }

  /** A non-negative quotient by a positive divisor is zero exactly when the dividend is. */
  lemma QuotientZero(s: nat, d: nat)
    requires d > 0
    ensures s as real / d as real == 0.0 <==> s == 0
  {
  }

  /** A positive factor cancels. */
  lemma CancelFactor(n: int, a: int, b: int)
    requires n > 0 && n * a == n * b
    ensures a == b
  {
    assert n * (a - b) == 0;
  }

  /** The variance is zero exactly when every shard carries the same load. */
  lemma VarianceZeroIffUniform(xs: seq<int>)
    requires |xs| > 0
    ensures Variance(xs) == 0.0 <==> Uniform(xs)
  {
    var n := |xs|;
    var total := Sum(xs);
    var cube: nat := n * n * n;
    assert cube > 0;
    QuotientZero(Spread(xs, n, total), cube);
    SpreadZero(xs, n, total);
    if Uniform(xs) {
      SumConstant(xs, xs[0]);
      assert forall i :: 0 <= i < n ==> n * xs[i] == total;
    }
    if Spread(xs, n, total) == 0 {
      forall i | 0 <= i < n
        ensures xs[i] == xs[0]
      {
        CancelFactor(n, xs[i], xs[0]);
      }
    }
  }

  // ---------------------------------------------------------------------------
  // The capacity range
  // ---------------------------------------------------------------------------

  function Abs(a: int): nat
  {
    if a < 0 then -a else a
  }

  /** `a / b` on Rust integers: the quotient rounded toward zero. */
  function TruncDiv(a: int, b: int): int
    requires b != 0
  {
    var q := Abs(a) / Abs(b);
    if (a < 0) == (b < 0) then q else -q
  }

  /**
   * The defining property of division rounding toward zero: the remainder is smaller than the
   * divisor in magnitude and takes the sign of the dividend.
   */
  lemma TruncDivRemainder(a: int, b: int)
    requires b != 0
    ensures var r := a - TruncDiv(a, b) * b;
            Abs(r) < Abs(b) && (a >= 0 ==> r >= 0) && (a < 0 ==> r <= 0)
  {
    var q := Abs(a) / Abs(b);
    var m := Abs(a) % Abs(b);
    assert Abs(a) == q * Abs(b) + m;
    TruncDivTimesDivisor(a, b, q);
  }

  /** The truncated quotient times the divisor is `Abs(a) / Abs(b) * Abs(b)` with the sign of `a`. */
  lemma TruncDivTimesDivisor(a: int, b: int, q: int)
    requires b != 0 && q == Abs(a) / Abs(b)
    ensures TruncDiv(a, b) * b == if a < 0 then -(q * Abs(b)) else q * Abs(b)
  {
    var bb: int := Abs(b);
    if a < 0 && b < 0 {
      assert TruncDiv(a, b) * b == q * (-bb);
    } else if a < 0 {
      assert TruncDiv(a, b) * b == (-q) * bb;
    } else if b < 0 {
      assert TruncDiv(a, b) * b == (-q) * (-bb);
    } else {
      assert TruncDiv(a, b) * b == q * bb;
    }
  }

  /**
   * The capacity range is the truncated `load / max ..= load / min`, with bounds taken as given:
   * negative bounds give negative capacities, and inverted bounds can leave it empty.
   */
  lemma CapacityRangeExamples(load: nat)
    ensures TruncDiv(load, -1) == -(load as int) && TruncDiv(load, -10) == -((load / 10) as int)
    ensures TruncDiv(load, -1) <= TruncDiv(load, -10)
    ensures TruncDiv(100, 40) == 2 && TruncDiv(100, 100) == 1
    ensures TruncDiv(0, 40) == 0 == TruncDiv(0, -7)
  {
  }

  /** On a non-negative dividend and positive divisor it agrees with floor division. */
  lemma TruncDivNonNegative(a: int, b: int)
    requires a >= 0 && b > 0
    ensures TruncDiv(a, b) == a / b
  {
  }

  // ---------------------------------------------------------------------------
  // The capacity search
  // ---------------------------------------------------------------------------

  /** What the cut at `capacity` scores: the variance of its shard loads. */
  function Cost(g: Geometry, cells: ScoredCells, capacity: int): real
    requires |cells| > 0
  {
    Variance(Loads(Partition(g, capacity, cells)))
  }

  /**
   * `capacity` is the capacity the search keeps among `lo..=hi`: no candidate scores lower, and
   * every earlier candidate scores strictly higher.
   */
  predicate FirstMinimal(g: Geometry, cells: ScoredCells, lo: int, hi: int, capacity: int)
    requires |cells| > 0
  {
    && lo <= capacity <= hi
    && (forall c :: lo <= c <= hi ==> Cost(g, cells, capacity) <= Cost(g, cells, c))
    && (forall c :: lo <= c < capacity ==> Cost(g, cells, capacity) < Cost(g, cells, c))
  }

  /** At most one capacity is the first minimal one, so the search result is determined. */
  lemma FirstMinimalUnique(g: Geometry, cells: ScoredCells, lo: int, hi: int, c1: int, c2: int)
    requires |cells| > 0
    requires FirstMinimal(g, cells, lo, hi, c1) && FirstMinimal(g, cells, lo, hi, c2)
    ensures c1 == c2
  {
    assert Cost(g, cells, c1) <= Cost(g, cells, c2) && Cost(g, cells, c2) <= Cost(g, cells, c1);
    assert !(c1 < c2) && !(c2 < c1);
  }

  /**
   * The loop of `build` over `container_size in min_size..=max_size`. The running minimum starts
   * at `f64::MAX`, above every deviation; here it starts as `None`. `None` comes back exactly when
   * the range is empty, where the source unwraps `None` and panics.
   */
  method SelectPartition(g: Geometry, cells: ScoredCells, lo: int, hi: int)
    returns (best: Option<seq<Geoshard>>, ghost capacity: int)
    requires |cells| > 0
    ensures best.None? <==> hi < lo
    ensures best.Some? ==> FirstMinimal(g, cells, lo, hi, capacity) && best.value == Partition(g, capacity, cells)
  {
    best := None;
    var minDeviation: Option<real> := None;
    capacity := lo;
    var containerSize := lo;
    while containerSize <= hi
      invariant lo <= containerSize && (containerSize == lo || containerSize <= hi + 1)
      invariant best.None? <==> containerSize == lo
      invariant best.None? ==> minDeviation.None?
      invariant best.Some? ==>
        && minDeviation == Some(Cost(g, cells, capacity))
        && FirstMinimal(g, cells, lo, containerSize - 1, capacity)
        && best.value == Partition(g, capacity, cells)
      decreases hi - containerSize
    {
      var shards := NewCollection(g, containerSize, cells);
      var deviation := Variance(Loads(shards));
      if minDeviation.None? || deviation < minDeviation.value {
        minDeviation := Some(deviation);
        best := Some(shards);
        capacity := containerSize;
      }
      containerSize := containerSize + 1;
    }
  }

  // ---------------------------------------------------------------------------
  // The loads add up to the number of users
  // ---------------------------------------------------------------------------

  /** Some cell of `cells` has key `c`. */
  predicate Listed(cells: ScoredCells, c: CellId)
  {
    exists i :: 0 <= i < |cells| && cells[i].0 == c
  }

  /** How many of `cells[..hi]` have key `c`. */
  function Occurrences(cells: ScoredCells, hi: nat, c: CellId): nat
    requires hi <= |cells|
  {
    if hi == 0 then 0 else Occurrences(cells, hi - 1, c) + (if cells[hi - 1].0 == c then 1 else 0)
  }

  /** The users counted in the cells `cells[..hi]`. */
  function CountOver(g: Geometry, level: Level, users: seq<LatLng>, cells: ScoredCells, hi: nat): nat
    requires hi <= |cells|
  {
    if hi == 0 then 0 else CountOver(g, level, users, cells, hi - 1) + UserCount(g, level, users, cells[hi - 1].0)
  }

  lemma {:induction false} OccurrencesAscending(cells: ScoredCells, hi: nat, c: CellId)
    requires hi <= |cells| && Ascending(cells)
    ensures Occurrences(cells, hi, c) == if exists i :: 0 <= i < hi && cells[i].0 == c then 1 else 0
  {
    if hi > 0 {
      OccurrencesAscending(cells, hi - 1, c);
      if cells[hi - 1].0 == c {
        assert forall i :: 0 <= i < hi - 1 ==> cells[i].0 < cells[hi - 1].0;
      }
    }
  }

  /** Dropping the last user takes one away from the count over the cells, where its cell is. */
  lemma {:induction false} CountOverLastUser(g: Geometry, level: Level, users: seq<LatLng>, cells: ScoredCells, hi: nat)
    requires hi <= |cells| && |users| > 0
    ensures CountOver(g, level, users, cells, hi)
            == CountOver(g, level, users[..|users| - 1], cells, hi) + Occurrences(cells, hi, CellAt(g, users[|users| - 1], level))
  {
    if hi > 0 {
      CountOverLastUser(g, level, users, cells, hi - 1);
    }
  }

  /** Over distinct cells that hold every user, each user is counted once. */
  lemma {:induction false} CountOverAllUsers(g: Geometry, level: Level, users: seq<LatLng>, cells: ScoredCells)
    requires Ascending(cells)
    requires forall u :: 0 <= u < |users| ==> Listed(cells, CellAt(g, users[u], level))
    ensures CountOver(g, level, users, cells, |cells|) == |users|
    decreases |users|
  {
    if users == [] {
      CountOverNoUsers(g, level, cells, |cells|);
    } else {
      var rest := users[..|users| - 1];
      forall u | 0 <= u < |rest|
        ensures Listed(cells, CellAt(g, rest[u], level))
      {
        assert rest[u] == users[u];
      }
      CountOverAllUsers(g, level, rest, cells);
      CountOverLastUser(g, level, users, cells, |cells|);
      var last := |users| - 1;
      OccurrencesAscending(cells, |cells|, CellAt(g, users[last], level));
    }
  }

  lemma {:induction false} CountOverNoUsers(g: Geometry, level: Level, cells: ScoredCells, hi: nat)
    requires hi <= |cells|
    ensures CountOver(g, level, [], cells, hi) == 0
  {
    if hi > 0 {
      CountOverNoUsers(g, level, cells, hi - 1);
    }
  }

  lemma {:induction false} ScoreSumIsCount(g: Geometry, level: Level, users: seq<LatLng>, cells: ScoredCells, hi: nat)
    requires hi <= |cells|
    requires forall i :: 0 <= i < |cells| ==> cells[i].1 == UserCount(g, level, users, cells[i].0)
    ensures ScoreSum(cells, 0, hi) == CountOver(g, level, users, cells, hi)
  {
    if hi > 0 {
      ScoreSumIsCount(g, level, users, cells, hi - 1);
    }
  }

  /**
   * The scored cell list of `build`: every cell reachable from the origin cell, scored with the
   * number of users it holds. (`universe` bounds the reachable cells; it does not change the map.)
   */
  ghost function ScoredGrid(g: Geometry, level: Level, users: seq<LatLng>, universe: set<CellId>): map<CellId, int>
  {
    map c | c in universe && Reachable(g, level, OriginCell(g, level), c) :: UserCount(g, level, users, c)
  }

  lemma EntriesListed(m: map<CellId, int>, c: CellId)
    requires c in m
    ensures Listed(Entries(m), c)
  {
    var cells := Entries(m);
    assert (c, m[c]) in cells;
    var i :| 0 <= i < |cells| && cells[i] == (c, m[c]);
    assert cells[i].0 == c;
  }

  /** Once every user lies in a listed cell, the cell scores add up to the number of users. */
  lemma TotalLoadIsUserCount(g: Geometry, level: Level, users: seq<LatLng>, universe: set<CellId>)
    requires AllUsersKnown(g, level, users, ScoredGrid(g, level, users, universe).Keys)
    ensures var cells := Entries(ScoredGrid(g, level, users, universe));
            ScoreSum(cells, 0, |cells|) == |users|
  {
    var grid := ScoredGrid(g, level, users, universe);
    var cells := Entries(grid);
    forall u | 0 <= u < |users|
      ensures Listed(cells, CellAt(g, users[u], level))
    {
      EntriesListed(grid, CellAt(g, users[u], level));
    }
    forall i | 0 <= i < |cells|
      ensures cells[i].1 == UserCount(g, level, users, cells[i].0)
    {
      assert cells[i].0 in grid;
    }
    assert Ascending(cells);
    CountOverAllUsers(g, level, users, cells);
    ScoreSumIsCount(g, level, users, cells, |cells|);
  }

  // ---------------------------------------------------------------------------
  // GeoshardBuilder::build
  // ---------------------------------------------------------------------------

  /** The panics of `build`, as errors. */
  datatype BuildError =
    | UserCellNotFound(user: nat)   // `score_cell_list` unwraps a missing cell
    | DivisionByZero                // a shard count of 0
    | NoCandidate                   // `min_size > max_size`: `best_shards` stays `None`

  /**
   * `GeoshardBuilder::build` with the `UserCountScorer`: list the cells, score them, and search
   * the capacities from `load / max_shard_count` to `load / min_shard_count`, the total load
   * being the number of users.
   */
  method Build(g: Geometry, storageLevel: Level, users: seq<LatLng>, minShardCount: int, maxShardCount: int,
               ghost universe: set<CellId>)
    returns (r: Result<seq<Geoshard>, BuildError>, ghost capacity: int)
    requires OriginCell(g, storageLevel) in universe && Closed(g, storageLevel, universe)
    requires |users| <= I32Max
    ensures var grid := ScoredGrid(g, storageLevel, users, universe);
            var cells := Entries(grid);
            && (r.Err? && r.error.UserCellNotFound? <==> !AllUsersKnown(g, storageLevel, users, grid.Keys))
            && (r.Err? && r.error.UserCellNotFound? ==>
                  && r.error.user < |users|
                  && CellAt(g, users[r.error.user], storageLevel) !in grid
                  && AllUsersKnown(g, storageLevel, users[..r.error.user], grid.Keys))
            && (AllUsersKnown(g, storageLevel, users, grid.Keys) ==>
                  && |cells| > 0
                  && (r == Err(DivisionByZero) <==> minShardCount == 0 || maxShardCount == 0)
                  && (minShardCount != 0 && maxShardCount != 0 ==>
                        var lo := TruncDiv(|users|, maxShardCount);
                        var hi := TruncDiv(|users|, minShardCount);
                        && (r == Err(NoCandidate) <==> hi < lo)
                        && (r.Ok? ==> FirstMinimal(g, cells, lo, hi, capacity) && r.value == Partition(g, capacity, cells))))
  {
    capacity := 0;
    ghost var grid := ScoredGrid(g, storageLevel, users, universe);
    var cellList := NewCellList(g, storageLevel, universe);
    forall c
      ensures c in cellList.cellList <==> c in grid
    {
      if c in cellList.cellList {
        ClosedSetHoldsReachable(g, storageLevel, OriginCell(g, storageLevel), universe, c);
      }
    }
    var scored := ScoreCellList(g, cellList, users);
    if scored.Err? {
      return Err(UserCellNotFound(scored.error)), capacity;
    }
    assert scored.value.cellList == grid;
    var scoredCells := Entries(scored.value.cellList);
    assert (OriginCell(g, storageLevel), grid[OriginCell(g, storageLevel)]) in scoredCells;
    var totalLoad := ScoreSum(scoredCells, 0, |scoredCells|);
    TotalLoadIsUserCount(g, storageLevel, users, universe);
    if minShardCount == 0 || maxShardCount == 0 {
      return Err(DivisionByZero), capacity;
    }
    var maxSize := TruncDiv(totalLoad, minShardCount);
    var minSize := TruncDiv(totalLoad, maxShardCount);
    var best;
    best, capacity := SelectPartition(g, scoredCells, minSize, maxSize);
    if best.None? {
      return Err(NoCandidate), capacity;
    }
    r := Ok(best.value);
  }
}
