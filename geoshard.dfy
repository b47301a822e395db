/**
 * `GeoshardCollection::new`: one pass over the scored cells in ascending id order that cuts
 * them into shards of bounded load.
 *
 * The cut rule, as the code has it: a cell is added to the open shard while
 * `load + score < capacity`; the first cell for which that fails ("the closing cell") becomes
 * the open shard's `end`, is not counted in its `cell_count`, and its score seeds the load of
 * the next shard, whose `start` is the cell after it. After the last cell, the open shard is
 * emitted only if it counted a cell, and then both its bounds are the last cell id.
 */
module Geoshards {
  import opened Wrappers
  import opened S2
  import opened OrderedMaps

  /**
   * `Geoshard`. Every shard `GeoshardCollection::new` builds is named `geoshard_user_index_<index>`; the record
   * keeps the number and `Name` spells it out. The bounds are S2 tokens in the source; a token is
   * identified with its cell id.
   */
  datatype Geoshard = Geoshard(
    index: nat,
    storageLevel: Level,
    start: Option<CellId>,
    end: Option<CellId>,
    cellCount: int,
    cellScore: int)

  /** A scored cell list as a `BTreeMap` iterates it: `(cell id, score)` pairs. */
  type ScoredCells = seq<(CellId, int)>

  // ---------------------------------------------------------------------------
  // Shard names: `geoshard_user_index_<n>`
  // ---------------------------------------------------------------------------

  function DigitChar(d: nat): char
    requires d < 10
  {
    "0123456789"[d]
  }

  /** `n` in decimal, as `format!("{}", n)` writes it. */
  function DecimalString(n: nat): (s: string)
    ensures |s| >= 1
    ensures n < 10 <==> |s| == 1
  {
    if n < 10 then [DigitChar(n)] else DecimalString(n / 10) + [DigitChar(n % 10)]
  }

  const ShardPrefix: string := "geoshard_user_index_"

  /** `format!("geoshard_user_index_{}", index)`. */
  function ShardName(index: nat): string
  {
    ShardPrefix + DecimalString(index)
  }

  /** The shard's name, `geoshard_user_index_<index>`. */
  function Name(shard: Geoshard): string
  {
    ShardName(shard.index)
  }

  lemma DigitCharInjective(a: nat, b: nat)
    requires a < 10 && b < 10 && DigitChar(a) == DigitChar(b)
    ensures a == b
  {
  }

  lemma {:induction false} DecimalStringInjective(a: nat, b: nat)
    requires DecimalString(a) == DecimalString(b)
    ensures a == b
    decreases a
  {
    var s := DecimalString(a);
    if a < 10 {
      DigitCharInjective(a, b);
    } else {
      assert b >= 10;
      assert s[|s| - 1] == DigitChar(a % 10) == DigitChar(b % 10);
      DigitCharInjective(a % 10, b % 10);
      assert s[..|s| - 1] == DecimalString(a / 10) == DecimalString(b / 10);
      DecimalStringInjective(a / 10, b / 10);
    }
  }

  /** Distinct shard indices give distinct shard names. */
  lemma ShardNameInjective(a: nat, b: nat)
    requires ShardName(a) == ShardName(b)
    ensures a == b
  {
    assert DecimalString(a) == ShardName(a)[|ShardPrefix|..];
    assert DecimalString(b) == ShardName(b)[|ShardPrefix|..];
    DecimalStringInjective(a, b);
  }

  // ---------------------------------------------------------------------------
  // The greedy cut, segment by segment
  // ---------------------------------------------------------------------------

  /** The scores of `cells[lo..hi]` added up. */
  function ScoreSum(cells: ScoredCells, lo: nat, hi: nat): int
    requires lo <= hi <= |cells|
    decreases hi
  {
    if hi == lo then 0 else ScoreSum(cells, lo, hi - 1) + cells[hi - 1].1
  }

  /**
   * Whether cell `k` still goes into a shard that opened at cell `from` with load `seed`,
   * all cells `from..k` having gone in: `shard.cell_score + cell_score < container_size`.
   */
  predicate Fits(cells: ScoredCells, capacity: int, from: nat, seed: int, k: nat)
    requires from <= k < |cells|
  {
    seed + ScoreSum(cells, from, k) + cells[k].1 < capacity
  }

  /** The first cell at or after `i` that does not fit the shard opened at `from`; `|cells|` if none. */
  function FirstClose(cells: ScoredCells, capacity: int, from: nat, seed: int, i: nat): (j: nat)
    requires from <= i <= |cells|
    ensures i <= j <= |cells|
    decreases |cells| - i
  {
    if i == |cells| then i
    else if Fits(cells, capacity, from, seed, i) then FirstClose(cells, capacity, from, seed, i + 1)
    else i
  }

  /** Every cell from `i` up to `FirstClose(.., i)` fits, and the closing cell itself does not. */
  lemma {:induction false} FirstCloseFits(cells: ScoredCells, capacity: int, from: nat, seed: int, i: nat)
    requires from <= i <= |cells|
    ensures var j := FirstClose(cells, capacity, from, seed, i);
            && (forall k :: i <= k < j ==> Fits(cells, capacity, from, seed, k))
            && (j < |cells| ==> !Fits(cells, capacity, from, seed, j))
    decreases |cells| - i
  {
    if i < |cells| && Fits(cells, capacity, from, seed, i) {
      FirstCloseFits(cells, capacity, from, seed, i + 1);
    }
  }

  /**
   * The shards cut from `cells[from..]` when the open shard has index `index`, storage level
   * `level` and load `seed`, and no cell has been added to it yet.
   */
  function Segments(g: Geometry, cells: ScoredCells, capacity: int, from: nat, seed: int, index: nat, level: Level)
    : (r: seq<Geoshard>)
    requires from <= |cells|
    ensures |r| <= |cells| - from
    ensures from < |cells| ==> |r| >= 1
    decreases |cells| - from
  {
    var j := FirstClose(cells, capacity, from, seed, from);
    if j < |cells| then
      [Geoshard(index, level, Some(cells[from].0), Some(cells[j].0), j - from, seed + ScoreSum(cells, from, j))]
      + Segments(g, cells, capacity, j + 1, cells[j].1, index + 1, g.level(cells[j].0))
    else if j - from != 0 then
      var last := cells[|cells| - 1].0;
      [Geoshard(index, level, Some(last), Some(last), j - from + 1, seed + ScoreSum(cells, from, j))]
    else
      []
  }

  /** The collection `GeoshardCollection::new(capacity, cells)` builds. */
  function Partition(g: Geometry, capacity: int, cells: ScoredCells): (r: seq<Geoshard>)
    requires |cells| > 0
    ensures 1 <= |r| <= |cells|
  {
    Segments(g, cells, capacity, 0, 0, 0, g.level(cells[0].0))
  }

  /** Start of segment `m` of the closing cells `closers`, when the first segment starts at `from`. */
  function SegStart(closers: seq<nat>, from: nat, m: nat): nat
    requires m <= |closers|
  {
    if m == 0 then from else closers[m - 1] + 1
  }

  /**
   * The closing cells lie in `from..n` and ascend strictly, so each closes a run of cells that
   * starts after the previous closing cell.
   */
  predicate ValidClosers(closers: seq<nat>, from: nat, n: nat)
    decreases |closers|
  {
    |closers| == 0 || (from <= closers[0] < n && ValidClosers(closers[1..], closers[0] + 1, n))
  }

  /** Segment `m` of valid closing cells starts no later than its closing cell, which is in range. */
  lemma {:induction false} ValidAt(closers: seq<nat>, from: nat, n: nat, m: nat)
    requires ValidClosers(closers, from, n) && m < |closers|
    ensures SegStart(closers, from, m) <= closers[m] < n
    decreases m
  {
    if m > 0 {
      ValidAt(closers[1..], closers[0] + 1, n, m - 1);
      assert closers[1..][m - 1] == closers[m];
      if m > 1 {
        assert closers[1..][m - 2] == closers[m - 1];
      }
    }
  }

  /** What segment `m` of valid closing cells needs: its predecessor and its own closing cell in range. */
  lemma ValidSegment(closers: seq<nat>, from: nat, n: nat, m: nat)
    requires ValidClosers(closers, from, n) && m <= |closers|
    ensures m > 0 ==> closers[m - 1] < n
    ensures m < |closers| ==> SegStart(closers, from, m) <= closers[m] < n
  {
    if m > 0 {
      ValidAt(closers, from, n, m - 1);
    }
    if m < |closers| {
      ValidAt(closers, from, n, m);
    }
  }

  /** Load a segment opens with: `seed` for the first, else the score of the cell that closed the one before. */
  function SegSeed(cells: ScoredCells, closers: seq<nat>, seed: int, m: nat): int
    requires m <= |closers| && (m > 0 ==> closers[m - 1] < |cells|)
  {
    if m == 0 then seed else cells[closers[m - 1]].1
  }

  /** Storage level of segment `m`: `level` for the first, else that of the cell that closed the one before. */
  function SegLevel(g: Geometry, cells: ScoredCells, closers: seq<nat>, level: Level, m: nat): Level
    requires m <= |closers| && (m > 0 ==> closers[m - 1] < |cells|)
  {
    if m == 0 then level else g.level(cells[closers[m - 1]].0)
  }

  /** Positions of the closing cells of the cut of `cells[from..]`. */
  function ClosersFrom(cells: ScoredCells, capacity: int, from: nat, seed: int): (r: seq<nat>)
    requires from <= |cells|
    ensures ValidClosers(r, from, |cells|)
    ensures SegStart(r, from, |r|) <= |cells|
    decreases |cells| - from
  {
    var j := FirstClose(cells, capacity, from, seed, from);
    if j < |cells| then
      var rest := ClosersFrom(cells, capacity, j + 1, cells[j].1);
      assert ([j] + rest)[1..] == rest;
      SegStartShift(j, rest, from, |rest|);
      [j] + rest
    else []
  }

  /** Positions of the closing cells of `GeoshardCollection::new(capacity, cells)`. */
  function Closers(cells: ScoredCells, capacity: int): seq<nat>
    requires |cells| > 0
  {
    ClosersFrom(cells, capacity, 0, 0)
  }

  // ---------------------------------------------------------------------------
  // GeoshardCollection::new
  // ---------------------------------------------------------------------------

  /** A cell that fits leaves the closing cell of the open shard where it was. */
  lemma FitStep(cells: ScoredCells, capacity: int, from: nat, seed: int, i: nat)
    requires from <= i < |cells|
    requires FirstClose(cells, capacity, from, seed, from) == FirstClose(cells, capacity, from, seed, i)
    requires seed + ScoreSum(cells, from, i) + cells[i].1 < capacity
    ensures FirstClose(cells, capacity, from, seed, from) == FirstClose(cells, capacity, from, seed, i + 1)
    ensures ScoreSum(cells, from, i + 1) == ScoreSum(cells, from, i) + cells[i].1
  {
  }

  /** A cell that does not fit closes the open shard and opens the next one after it. */
  lemma CloseStep(g: Geometry, cells: ScoredCells, capacity: int, from: nat, seed: int, index: nat, level: Level, i: nat)
    requires from <= i < |cells|
    requires FirstClose(cells, capacity, from, seed, from) == FirstClose(cells, capacity, from, seed, i)
    requires seed + ScoreSum(cells, from, i) + cells[i].1 >= capacity
    ensures Segments(g, cells, capacity, from, seed, index, level)
            == [Geoshard(index, level, Some(cells[from].0), Some(cells[i].0), i - from, seed + ScoreSum(cells, from, i))]
               + Segments(g, cells, capacity, i + 1, cells[i].1, index + 1, g.level(cells[i].0))
  {
    assert FirstClose(cells, capacity, from, seed, i) == i;
  }

  /** After the last cell, only the trailing shard is left, if it counted any cell. */
  lemma LastStep(g: Geometry, cells: ScoredCells, capacity: int, from: nat, seed: int, index: nat, level: Level)
    requires from <= |cells|
    requires FirstClose(cells, capacity, from, seed, from) == FirstClose(cells, capacity, from, seed, |cells|)
    ensures Segments(g, cells, capacity, from, seed, index, level)
            == if |cells| - from != 0 then
                 var last := cells[|cells| - 1].0;
                 [Geoshard(index, level, Some(last), Some(last), |cells| - from + 1, seed + ScoreSum(cells, from, |cells|))]
               else []
  {
  }

  /**
   * State of `GeoshardCollection::new` after the first `i` cells: `done` holds the closed shards,
   * `shard` is the open one, which opened at cell `from` with load `seed`; what is still to be
   * cut from `from` on completes `done` to the whole partition.
   */
  ghost predicate Walked(g: Geometry, cells: ScoredCells, capacity: int, i: nat,
                         done: seq<Geoshard>, shard: Geoshard, from: nat, seed: int)
    requires 0 < |cells| && i <= |cells|
  {
    && from <= i
    && shard.index == |done| && shard.end == None
    && shard.start == (if from < i || from == 0 then Some(cells[from].0) else None)
    && shard.cellCount == i - from
    && shard.cellScore == seed + ScoreSum(cells, from, i)
    && FirstClose(cells, capacity, from, seed, from) == FirstClose(cells, capacity, from, seed, i)
    && done + Segments(g, cells, capacity, from, seed, |done|, shard.storageLevel) == Partition(g, capacity, cells)
  }

  /** Before the first cell, the open shard is the empty first shard and nothing is done. */
  lemma WalkStart(g: Geometry, cells: ScoredCells, capacity: int)
    requires 0 < |cells|
    ensures Walked(g, cells, capacity, 0, [], Geoshard(0, g.level(cells[0].0), Some(cells[0].0), None, 0, 0), 0, 0)
  {
    assert [] + Partition(g, capacity, cells) == Partition(g, capacity, cells);
  }

  /** The open shard after the lazy start of `GeoshardCollection::new` has seen cell `i`. */
  function Opened(shard: Geoshard, cellId: CellId): Geoshard
  {
    if shard.start == None then shard.(start := Some(cellId)) else shard
  }

  /** A cell that fits goes into the open shard. */
  lemma WalkFit(g: Geometry, cells: ScoredCells, capacity: int, i: nat,
                done: seq<Geoshard>, shard: Geoshard, from: nat, seed: int)
    requires i < |cells| && Walked(g, cells, capacity, i, done, shard, from, seed)
    requires Opened(shard, cells[i].0).cellScore + cells[i].1 < capacity
    ensures var s := Opened(shard, cells[i].0);
            Walked(g, cells, capacity, i + 1, done,
                   s.(cellScore := s.cellScore + cells[i].1, cellCount := s.cellCount + 1), from, seed)
  {
    FitStep(cells, capacity, from, seed, i);
  }

  /** A cell that does not fit closes the open shard as its end and seeds the next one. */
  lemma WalkClose(g: Geometry, cells: ScoredCells, capacity: int, i: nat,
                  done: seq<Geoshard>, shard: Geoshard, from: nat, seed: int)
    requires i < |cells| && Walked(g, cells, capacity, i, done, shard, from, seed)
    requires Opened(shard, cells[i].0).cellScore + cells[i].1 >= capacity
    ensures Walked(g, cells, capacity, i + 1, done + [Opened(shard, cells[i].0).(end := Some(cells[i].0))],
                   Geoshard(|done| + 1, g.level(cells[i].0), None, None, 0, cells[i].1), i + 1, cells[i].1)
  {
    var closed := Opened(shard, cells[i].0).(end := Some(cells[i].0));
    assert closed == Geoshard(|done|, shard.storageLevel, Some(cells[from].0), Some(cells[i].0),
                              i - from, seed + ScoreSum(cells, from, i));
    CloseStep(g, cells, capacity, from, seed, |done|, shard.storageLevel, i);
    AppendShift(done, closed, Segments(g, cells, capacity, i + 1, cells[i].1, |done| + 1, g.level(cells[i].0)),
                Partition(g, capacity, cells));
  }

  /** Moving the head of what is left to the end of what is done keeps their concatenation. */
  lemma AppendShift(done: seq<Geoshard>, closed: Geoshard, rest: seq<Geoshard>, whole: seq<Geoshard>)
    requires done + ([closed] + rest) == whole
    ensures (done + [closed]) + rest == whole && |done + [closed]| == |done| + 1
  {
    assert (done + [closed]) + rest == done + ([closed] + rest);
  }

  /** After the last cell the trailing shard, if it counted a cell, completes the partition. */
  lemma WalkEnd(g: Geometry, cells: ScoredCells, capacity: int,
                done: seq<Geoshard>, shard: Geoshard, from: nat, seed: int)
    requires 0 < |cells| && Walked(g, cells, capacity, |cells|, done, shard, from, seed)
    ensures var last := cells[|cells| - 1].0;
            Partition(g, capacity, cells)
            == if shard.cellCount != 0
               then done + [shard.(start := Some(last), end := Some(last), cellCount := shard.cellCount + 1)]
               else done
  {
    LastStep(g, cells, capacity, from, seed, |done|, shard.storageLevel);
  }

  /**
   * `GeoshardCollection::new`: walks the cells once with a running shard record. The source
   * unwraps the first cell, so the cell list must not be empty.
   */
  method NewCollection(g: Geometry, containerSize: int, scoredCells: ScoredCells) returns (geoShards: seq<Geoshard>)
    requires |scoredCells| > 0
    ensures geoShards == Partition(g, containerSize, scoredCells)
  {
    var firstCell := scoredCells[0];
    var shard := Geoshard(0, g.level(firstCell.0), Some(firstCell.0), None, 0, 0);
    geoShards := [];
    var geoshardCount: nat := 1;
    ghost var from: nat, seed := 0, 0;
    WalkStart(g, scoredCells, containerSize);
    for i := 0 to |scoredCells|
      invariant geoshardCount == |geoShards| + 1
      invariant Walked(g, scoredCells, containerSize, i, geoShards, shard, from, seed)
    {
      var (cellId, cellScore) := scoredCells[i];
      ghost var entered := shard;
      if shard.start == None {
        shard := shard.(start := Some(cellId));
      }
      assert shard == Opened(entered, cellId) && cellId == scoredCells[i].0 && cellScore == scoredCells[i].1;
      if shard.cellScore + cellScore < containerSize {
        WalkFit(g, scoredCells, containerSize, i, geoShards, entered, from, seed);
        shard := shard.(cellScore := shard.cellScore + cellScore, cellCount := shard.cellCount + 1);
      } else {
        WalkClose(g, scoredCells, containerSize, i, geoShards, entered, from, seed);
        shard := shard.(end := Some(cellId));
        geoShards := geoShards + [shard];
        shard := Geoshard(geoshardCount, g.level(cellId), None, None, 0, cellScore);
        geoshardCount := geoshardCount + 1;
        from, seed := i + 1, cellScore;
      }
    }
    WalkEnd(g, scoredCells, containerSize, geoShards, shard, from, seed);
    if shard.cellCount != 0 {
      var last := scoredCells[|scoredCells| - 1];
      shard := shard.(start := Some(last.0), end := Some(last.0), cellCount := shard.cellCount + 1);
      geoShards := geoShards + [shard];
    }
  }

  // ---------------------------------------------------------------------------
  // The shape of the cut
  // ---------------------------------------------------------------------------

  lemma {:induction false} ScoreSumSplit(cells: ScoredCells, a: nat, b: nat, c: nat)
    requires a <= b <= c <= |cells|
    ensures ScoreSum(cells, a, c) == ScoreSum(cells, a, b) + ScoreSum(cells, b, c)
    decreases c
  {
    if c > b {
      ScoreSumSplit(cells, a, b, c - 1);
    }
  }

  lemma SegStartShift(j: nat, rest: seq<nat>, from: nat, m: nat)
    requires m <= |rest|
    ensures SegStart([j] + rest, from, m + 1) == SegStart(rest, j + 1, m)
  {
  }

  /**
   * Segment `m` of the cut by `closers` follows the greedy rule: each of its cells before its
   * closing cell fits, and its closing cell does not; past the last closing cell, every cell fits.
   */
  ghost predicate Greedy(cells: ScoredCells, capacity: int, closers: seq<nat>, from: nat, seed: int, m: nat)
    requires ValidClosers(closers, from, |cells|) && SegStart(closers, from, |closers|) <= |cells|
    requires m <= |closers|
  {
    ValidSegment(closers, from, |cells|, m);
    var start := SegStart(closers, from, m);
    var load := SegSeed(cells, closers, seed, m);
    if m < |closers| then
      && (forall k :: start <= k < closers[m] ==> Fits(cells, capacity, start, load, k))
      && !Fits(cells, capacity, start, load, closers[m])
    else
      forall k :: start <= k < |cells| ==> Fits(cells, capacity, start, load, k)
  }

  /** Segments after the first one are those of the cut that starts after the first closing cell. */
  lemma GreedyShift(cells: ScoredCells, capacity: int, j: nat, rest: seq<nat>, from: nat, seed: int, m: nat)
    requires from <= j < |cells|
    requires ValidClosers([j] + rest, from, |cells|) && SegStart([j] + rest, from, |rest| + 1) <= |cells|
    requires ValidClosers(rest, j + 1, |cells|) && SegStart(rest, j + 1, |rest|) <= |cells|
    requires 0 < m <= |rest| + 1
    requires Greedy(cells, capacity, rest, j + 1, cells[j].1, m - 1)
    ensures Greedy(cells, capacity, [j] + rest, from, seed, m)
  {
    SegStartShift(j, rest, from, m - 1);
    ValidSegment([j] + rest, from, |cells|, m);
    ValidSegment(rest, j + 1, |cells|, m - 1);
    assert SegSeed(cells, [j] + rest, seed, m) == SegSeed(cells, rest, cells[j].1, m - 1);
    if m - 1 < |rest| {
      assert ([j] + rest)[m] == rest[m - 1];
    }
  }

  /** The closing cells are exactly the greedy ones: segment `m` of the cut follows the greedy rule. */
  lemma {:induction false} ClosersGreedy(cells: ScoredCells, capacity: int, from: nat, seed: int, m: nat)
    requires from <= |cells|
    requires m <= |ClosersFrom(cells, capacity, from, seed)|
    ensures Greedy(cells, capacity, ClosersFrom(cells, capacity, from, seed), from, seed, m)
    decreases |cells| - from
  {
    var j := FirstClose(cells, capacity, from, seed, from);
    FirstCloseFits(cells, capacity, from, seed, from);
    if j < |cells| {
      var rest := ClosersFrom(cells, capacity, j + 1, cells[j].1);
      assert ClosersFrom(cells, capacity, from, seed) == [j] + rest;
      if m == 0 {
        assert Greedy(cells, capacity, [j] + rest, from, seed, 0);
      } else {
        ClosersGreedy(cells, capacity, j + 1, cells[j].1, m - 1);
        GreedyShift(cells, capacity, j, rest, from, seed, m);
      }
    } else {
      assert Greedy(cells, capacity, [], from, seed, 0);
    }
  }

  /**
   * Shard `m` of the cut by `closers` of `cells[from..]` (the first with index `index`, storage
   * level `level` and load `seed`): it runs from the cell after the previous closing cell to its
   * closing cell `closers[m]`, counts the cells before `closers[m]` and carries their load plus
   * the score of the previous closing cell.
   */
  function ClosedShard(g: Geometry, cells: ScoredCells, closers: seq<nat>, from: nat, seed: int,
                       index: nat, level: Level, m: nat): Geoshard
    requires ValidClosers(closers, from, |cells|) && m < |closers|
  {
    ValidSegment(closers, from, |cells|, m);
    var start := SegStart(closers, from, m);
    Geoshard(index + m, SegLevel(g, cells, closers, level, m),
             Some(cells[start].0), Some(cells[closers[m]].0),
             closers[m] - start, SegSeed(cells, closers, seed, m) + ScoreSum(cells, start, closers[m]))
  }

  /**
   * The shard after the last closing cell, when cells are left: both bounds on the last cell, the
   * count of the cells left plus one, their load plus the score of the last closing cell.
   */
  function TrailingShard(g: Geometry, cells: ScoredCells, closers: seq<nat>, from: nat, seed: int,
                         index: nat, level: Level): Geoshard
    requires ValidClosers(closers, from, |cells|) && SegStart(closers, from, |closers|) < |cells|
  {
    ValidSegment(closers, from, |cells|, |closers|);
    var start := SegStart(closers, from, |closers|);
    var last := cells[|cells| - 1].0;
    Geoshard(index + |closers|, SegLevel(g, cells, closers, level, |closers|),
             Some(last), Some(last), |cells| - start + 1,
             SegSeed(cells, closers, seed, |closers|) + ScoreSum(cells, start, |cells|))
  }

  lemma ClosedShardShift(g: Geometry, cells: ScoredCells, j: nat, rest: seq<nat>, from: nat, seed: int,
                         index: nat, level: Level, m: nat)
    requires from <= j < |cells|
    requires ValidClosers([j] + rest, from, |cells|) && ValidClosers(rest, j + 1, |cells|)
    requires 0 < m <= |rest|
    ensures ClosedShard(g, cells, [j] + rest, from, seed, index, level, m)
            == ClosedShard(g, cells, rest, j + 1, cells[j].1, index + 1, g.level(cells[j].0), m - 1)
  {
    SegStartShift(j, rest, from, m - 1);
    assert index + m == index + 1 + (m - 1);
  }

  lemma TrailingShardShift(g: Geometry, cells: ScoredCells, j: nat, rest: seq<nat>, from: nat, seed: int,
                           index: nat, level: Level)
    requires from <= j < |cells|
    requires ValidClosers([j] + rest, from, |cells|) && ValidClosers(rest, j + 1, |cells|)
    requires SegStart(rest, j + 1, |rest|) < |cells|
    ensures SegStart([j] + rest, from, |rest| + 1) == SegStart(rest, j + 1, |rest|)
    ensures TrailingShard(g, cells, [j] + rest, from, seed, index, level)
            == TrailingShard(g, cells, rest, j + 1, cells[j].1, index + 1, g.level(cells[j].0))
  {
    SegStartShift(j, rest, from, |rest|);
    assert index + (|rest| + 1) == index + 1 + |rest|;
  }

  /** One step of `ClosersFrom`: the first closing cell, then those of the cut after it. */
  lemma ClosersUnfold(cells: ScoredCells, capacity: int, from: nat, seed: int)
    requires from <= |cells|
    ensures var j := FirstClose(cells, capacity, from, seed, from);
            ClosersFrom(cells, capacity, from, seed)
            == if j < |cells| then [j] + ClosersFrom(cells, capacity, j + 1, cells[j].1) else []
  {
  }

  /** The number of shards of the cut of `cells[from..]`, as `ClosersFrom` predicts it. */
  ghost predicate LengthMatches(g: Geometry, cells: ScoredCells, capacity: int, from: nat, seed: int,
                                index: nat, level: Level)
    requires from <= |cells|
  {
    var closers := ClosersFrom(cells, capacity, from, seed);
    |Segments(g, cells, capacity, from, seed, index, level)|
    == |closers| + (if SegStart(closers, from, |closers|) < |cells| then 1 else 0)
  }

  lemma LengthStep(g: Geometry, cells: ScoredCells, capacity: int, from: nat, seed: int, index: nat, level: Level)
    requires from <= |cells|
    requires var j := FirstClose(cells, capacity, from, seed, from);
             j < |cells| && LengthMatches(g, cells, capacity, j + 1, cells[j].1, index + 1, g.level(cells[j].0))
    ensures LengthMatches(g, cells, capacity, from, seed, index, level)
  {
    var j := FirstClose(cells, capacity, from, seed, from);
    var rest := ClosersFrom(cells, capacity, j + 1, cells[j].1);
    var tail := Segments(g, cells, capacity, j + 1, cells[j].1, index + 1, g.level(cells[j].0));
    assert |tail| == |rest| + (if SegStart(rest, j + 1, |rest|) < |cells| then 1 else 0);
    SegmentsUnfold(g, cells, capacity, from, seed, index, level);
    assert |Segments(g, cells, capacity, from, seed, index, level)| == 1 + |tail|;
    ClosersUnfold(cells, capacity, from, seed);
    SegStartShift(j, rest, from, |rest|);
  }

  /** The cut of `cells[from..]` has one shard per closing cell, plus one when cells are left after the last. */
  lemma {:induction false} SegmentsLength(g: Geometry, cells: ScoredCells, capacity: int, from: nat, seed: int,
                                          index: nat, level: Level)
    requires from <= |cells|
    ensures LengthMatches(g, cells, capacity, from, seed, index, level)
    decreases |cells| - from
  {
    var j := FirstClose(cells, capacity, from, seed, from);
    if j < |cells| {
      SegmentsLength(g, cells, capacity, j + 1, cells[j].1, index + 1, g.level(cells[j].0));
      LengthStep(g, cells, capacity, from, seed, index, level);
    }
  }

  /** When some cell of `cells[from..]` closes a shard, the closers are that cell and those of the rest. */
  lemma ClosersCons(cells: ScoredCells, capacity: int, from: nat, seed: int, j: nat)
    requires from <= |cells| && j == FirstClose(cells, capacity, from, seed, from) && j < |cells|
    ensures ClosersFrom(cells, capacity, from, seed) == [j] + ClosersFrom(cells, capacity, j + 1, cells[j].1)
  {
  }

  /** A cut with some closing cell has its first closing cell in range. */
  lemma ClosersNonEmpty(cells: ScoredCells, capacity: int, from: nat, seed: int)
    requires from <= |cells| && 0 < |ClosersFrom(cells, capacity, from, seed)|
    ensures FirstClose(cells, capacity, from, seed, from) < |cells|
  {
  }

  /** When some cell of `cells[from..]` closes a shard, the shards after the first are the cut of the rest. */
  lemma SegmentsCons(g: Geometry, cells: ScoredCells, capacity: int, from: nat, seed: int, index: nat, level: Level,
                     j: nat)
    requires from <= |cells| && j == FirstClose(cells, capacity, from, seed, from) && j < |cells|
    ensures var r := Segments(g, cells, capacity, from, seed, index, level);
            0 < |r| && r[1..] == Segments(g, cells, capacity, j + 1, cells[j].1, index + 1, g.level(cells[j].0))
  {
  }

  /** Shard `m` of the cut of `cells[from..]`, for a closing cell `m`, is `ClosedShard(.., m)`. */
  ghost predicate ClosedMatches(g: Geometry, cells: ScoredCells, capacity: int, from: nat, seed: int,
                                index: nat, level: Level, m: nat)
    requires from <= |cells| && m < |ClosersFrom(cells, capacity, from, seed)|
  {
    var r := Segments(g, cells, capacity, from, seed, index, level);
    m < |r| && r[m] == ClosedShard(g, cells, ClosersFrom(cells, capacity, from, seed), from, seed, index, level, m)
  }

  lemma ClosedFirst(g: Geometry, cells: ScoredCells, capacity: int, from: nat, seed: int, index: nat, level: Level)
    requires from <= |cells| && 0 < |ClosersFrom(cells, capacity, from, seed)|
    ensures ClosedMatches(g, cells, capacity, from, seed, index, level, 0)
  {
    ClosersUnfold(cells, capacity, from, seed);
  }

  /**
   * One step of `SegmentsClosed`, on values: when the closers are `[j] + rest` and the shards after
   * the first are `tail`, shard `m` is the one the rest of the cut places at `m - 1`.
   */
  lemma ClosedStep(g: Geometry, cells: ScoredCells, closers: seq<nat>, rest: seq<nat>, j: nat,
                   r: seq<Geoshard>, tail: seq<Geoshard>, from: nat, seed: int, index: nat, level: Level, m: nat)
    requires from <= j < |cells| && closers == [j] + rest
    requires ValidClosers(closers, from, |cells|) && ValidClosers(rest, j + 1, |cells|)
    requires 0 < m <= |rest| && 0 < |r| && r[1..] == tail && m - 1 < |tail|
    requires tail[m - 1] == ClosedShard(g, cells, rest, j + 1, cells[j].1, index + 1, g.level(cells[j].0), m - 1)
    ensures m < |r| && r[m] == ClosedShard(g, cells, closers, from, seed, index, level, m)
  {
    ClosedShardShift(g, cells, j, rest, from, seed, index, level, m);
    ShiftIndex(r, tail, m - 1);
  }

  lemma {:induction false} SegmentsClosed(g: Geometry, cells: ScoredCells, capacity: int, from: nat, seed: int,
                                          index: nat, level: Level, m: nat)
    requires from <= |cells| && m < |ClosersFrom(cells, capacity, from, seed)|
    ensures ClosedMatches(g, cells, capacity, from, seed, index, level, m)
    decreases |cells| - from
  {
    if m == 0 {
      ClosedFirst(g, cells, capacity, from, seed, index, level);
    } else {
      var j := FirstClose(cells, capacity, from, seed, from);
      ClosersNonEmpty(cells, capacity, from, seed);
      var level' := g.level(cells[j].0);
      var rest := ClosersFrom(cells, capacity, j + 1, cells[j].1);
      ClosersCons(cells, capacity, from, seed, j);
      SegmentsCons(g, cells, capacity, from, seed, index, level, j);
      SegmentsClosed(g, cells, capacity, j + 1, cells[j].1, index + 1, level', m - 1);
      ClosedStep(g, cells, ClosersFrom(cells, capacity, from, seed), rest, j,
                 Segments(g, cells, capacity, from, seed, index, level),
                 Segments(g, cells, capacity, j + 1, cells[j].1, index + 1, level'), from, seed, index, level, m);
    }
  }

  /** Whether cells are left after the last closing cell of the cut of `cells[from..]`. */
  predicate HasTrailing(cells: ScoredCells, capacity: int, from: nat, seed: int)
    requires from <= |cells|
  {
    var closers := ClosersFrom(cells, capacity, from, seed);
    SegStart(closers, from, |closers|) < |cells|
  }

  /** The shard after the last closing cell of the cut of `cells[from..]` is `TrailingShard(..)`. */
  ghost predicate TrailingMatches(g: Geometry, cells: ScoredCells, capacity: int, from: nat, seed: int,
                                  index: nat, level: Level)
    requires from <= |cells| && HasTrailing(cells, capacity, from, seed)
  {
    var r := Segments(g, cells, capacity, from, seed, index, level);
    var closers := ClosersFrom(cells, capacity, from, seed);
    |closers| < |r| && r[|closers|] == TrailingShard(g, cells, closers, from, seed, index, level)
  }

  /**
   * One step of `SegmentsTrailing`, on values: when the closers are `[j] + rest` and the shards after
   * the first are `tail`, the trailing shard is the one the rest of the cut places after `rest`.
   */
  lemma TrailingStep(g: Geometry, cells: ScoredCells, closers: seq<nat>, rest: seq<nat>, j: nat,
                     r: seq<Geoshard>, tail: seq<Geoshard>, from: nat, seed: int, index: nat, level: Level)
    requires from <= j < |cells| && closers == [j] + rest
    requires ValidClosers(closers, from, |cells|) && ValidClosers(rest, j + 1, |cells|)
    requires SegStart(rest, j + 1, |rest|) < |cells|
    requires 0 < |r| && r[1..] == tail && |rest| < |tail|
    requires tail[|rest|] == TrailingShard(g, cells, rest, j + 1, cells[j].1, index + 1, g.level(cells[j].0))
    ensures SegStart(closers, from, |closers|) < |cells|
    ensures |closers| < |r| && r[|closers|] == TrailingShard(g, cells, closers, from, seed, index, level)
  {
    TrailingShardShift(g, cells, j, rest, from, seed, index, level);
    ShiftIndex(r, tail, |rest|);
  }

  /** Dropping the head of both a shard list and its closer list keeps their positions aligned. */
  lemma ShiftIndex(r: seq<Geoshard>, tail: seq<Geoshard>, k: nat)
    requires 0 < |r| && r[1..] == tail && k < |tail|
    ensures k + 1 < |r| && r[k + 1] == tail[k]
  {
  }

  lemma TrailingLast(g: Geometry, cells: ScoredCells, capacity: int, from: nat, seed: int, index: nat, level: Level)
    requires from < |cells| && FirstClose(cells, capacity, from, seed, from) == |cells|
    ensures HasTrailing(cells, capacity, from, seed)
    ensures TrailingMatches(g, cells, capacity, from, seed, index, level)
  {
    ClosersUnfold(cells, capacity, from, seed);
    assert Segments(g, cells, capacity, from, seed, index, level) == [TrailingShard(g, cells, [], from, seed, index, level)];
  }

  lemma {:induction false} SegmentsTrailing(g: Geometry, cells: ScoredCells, capacity: int, from: nat, seed: int,
                                            index: nat, level: Level)
    requires from <= |cells| && HasTrailing(cells, capacity, from, seed)
    ensures TrailingMatches(g, cells, capacity, from, seed, index, level)
    decreases |cells| - from
  {
    var j := FirstClose(cells, capacity, from, seed, from);
    ClosersUnfold(cells, capacity, from, seed);
    if j < |cells| {
      var level' := g.level(cells[j].0);
      var rest := ClosersFrom(cells, capacity, j + 1, cells[j].1);
      ClosersCons(cells, capacity, from, seed, j);
      SegmentsCons(g, cells, capacity, from, seed, index, level, j);
      SegStartShift(j, rest, from, |rest|);
      SegmentsTrailing(g, cells, capacity, j + 1, cells[j].1, index + 1, level');
      TrailingStep(g, cells, ClosersFrom(cells, capacity, from, seed), rest, j,
                   Segments(g, cells, capacity, from, seed, index, level),
                   Segments(g, cells, capacity, j + 1, cells[j].1, index + 1, level'), from, seed, index, level);
    } else {
      TrailingLast(g, cells, capacity, from, seed, index, level);
    }
  }

  /** The cut of the whole cell list, in closed form over `Closers(cells, capacity)`. */
  lemma PartitionShape(g: Geometry, capacity: int, cells: ScoredCells)
    requires |cells| > 0
    ensures var p := Partition(g, capacity, cells);
            var closers := Closers(cells, capacity);
            var level := g.level(cells[0].0);
            var rest := SegStart(closers, 0, |closers|);
            && |p| == |closers| + (if rest < |cells| then 1 else 0)
            && (forall m :: 0 <= m < |closers| ==> p[m] == ClosedShard(g, cells, closers, 0, 0, 0, level, m))
            && (rest < |cells| ==> p[|closers|] == TrailingShard(g, cells, closers, 0, 0, 0, level))
  {
    var level := g.level(cells[0].0);
    var closers := Closers(cells, capacity);
    SegmentsLength(g, cells, capacity, 0, 0, 0, level);
    forall m | 0 <= m < |closers|
      ensures Partition(g, capacity, cells)[m] == ClosedShard(g, cells, closers, 0, 0, 0, level, m)
    {
      SegmentsClosed(g, cells, capacity, 0, 0, 0, level, m);
    }
    if SegStart(closers, 0, |closers|) < |cells| {
      SegmentsTrailing(g, cells, capacity, 0, 0, 0, level);
    }
  }

  /** The closing cells ascend strictly. */
  lemma {:induction false} ClosersAscending(closers: seq<nat>, from: nat, n: nat, a: nat, b: nat)
    requires ValidClosers(closers, from, n) && a < b < |closers|
    ensures closers[a] < closers[b]
    decreases b - a
  {
    ValidAt(closers, from, n, b);
    if a < b - 1 {
      ClosersAscending(closers, from, n, a, b - 1);
    }
  }

  /** The cut has one shard per closing cell, and one more when cells are left after the last. */
  lemma PartitionSize(g: Geometry, capacity: int, cells: ScoredCells)
    requires |cells| > 0
    ensures var p := Partition(g, capacity, cells);
            var closers := Closers(cells, capacity);
            && |closers| <= |p| <= |closers| + 1
            && (|closers| < |p| <==> SegStart(closers, 0, |closers|) < |cells|)
  {
    PartitionShape(g, capacity, cells);
  }

  /** Closed shard `m` over ascending cells: from the cell after the previous closing cell to its own. */
  lemma ClosedShardBounds(g: Geometry, capacity: int, cells: ScoredCells, m: nat)
    requires |cells| > 0 && Ascending(cells) && m < |Closers(cells, capacity)|
    ensures var closers := Closers(cells, capacity);
            var p := Partition(g, capacity, cells);
            && m < |p|
            && SegStart(closers, 0, m) <= closers[m] < |cells|
            && p[m].start == Some(cells[SegStart(closers, 0, m)].0)
            && p[m].end == Some(cells[closers[m]].0)
            && p[m].start.value <= p[m].end.value
  {
    var closers := Closers(cells, capacity);
    PartitionShape(g, capacity, cells);
    ValidSegment(closers, 0, |cells|, m);
    assert Partition(g, capacity, cells)[m] == ClosedShard(g, cells, closers, 0, 0, 0, g.level(cells[0].0), m);
  }

  /** The trailing shard, when there is one, sits on the largest key. */
  lemma TrailingShardBounds(g: Geometry, capacity: int, cells: ScoredCells)
    requires |cells| > 0
    requires var closers := Closers(cells, capacity); SegStart(closers, 0, |closers|) < |cells|
    ensures var closers := Closers(cells, capacity);
            var p := Partition(g, capacity, cells);
            && |closers| < |p|
            && p[|closers|].start == p[|closers|].end == Some(cells[|cells| - 1].0)
  {
    var closers := Closers(cells, capacity);
    PartitionShape(g, capacity, cells);
    assert Partition(g, capacity, cells)[|closers|] == TrailingShard(g, cells, closers, 0, 0, 0, g.level(cells[0].0));
  }

  /** The bounds of each shard of the cut of ascending cells, in closed form. */
  ghost predicate BoundsMatch(cells: ScoredCells, closers: seq<nat>, p: seq<Geoshard>)
    requires |cells| > 0
  {
    && |closers| <= |p| <= |closers| + 1
    && (|closers| < |p| <==> SegStart(closers, 0, |closers|) < |cells|)
    && (forall m :: 0 <= m < |p| ==> p[m].start.Some? && p[m].end.Some? && p[m].start.value <= p[m].end.value)
    && (forall m :: 0 <= m < |closers| ==> SegStart(closers, 0, m) <= closers[m] < |cells|)
    && (forall m :: 0 <= m < |closers| ==>
          p[m].start == Some(cells[SegStart(closers, 0, m)].0) && p[m].end == Some(cells[closers[m]].0))
    && (|closers| < |p| ==> p[|closers|].start == p[|closers|].end == Some(cells[|cells| - 1].0))
  }

  lemma ShardBounds(g: Geometry, capacity: int, cells: ScoredCells)
    requires |cells| > 0 && Ascending(cells)
    ensures BoundsMatch(cells, Closers(cells, capacity), Partition(g, capacity, cells))
  {
    var p := Partition(g, capacity, cells);
    var closers := Closers(cells, capacity);
    PartitionSize(g, capacity, cells);
    forall m | 0 <= m < |closers|
      ensures SegStart(closers, 0, m) <= closers[m] < |cells|
      ensures p[m].start == Some(cells[SegStart(closers, 0, m)].0) && p[m].end == Some(cells[closers[m]].0)
      ensures p[m].start.value <= p[m].end.value
    {
      ClosedShardBounds(g, capacity, cells, m);
    }
    if |closers| < |p| {
      TrailingShardBounds(g, capacity, cells);
    }
    forall m | 0 <= m < |p|
      ensures p[m].start.Some? && p[m].end.Some? && p[m].start.value <= p[m].end.value
    {
      if m == |closers| {
        assert p[m].start == p[m].end;
      }
    }
  }

  /**
   * Bounds of the shards over an ascending cell list. Every shard has both bounds, in order. Shard
   * `m` closed in the loop runs from the cell after the previous closing cell (from the smallest
   * key, for the first) to its own closing cell; the trailing shard sits on the largest key.
   * Consecutive shards do not overlap.
   */
  lemma PartitionBounds(g: Geometry, capacity: int, cells: ScoredCells)
    requires |cells| > 0 && Ascending(cells)
    ensures var p := Partition(g, capacity, cells);
            var closers := Closers(cells, capacity);
            && BoundsMatch(cells, closers, p)
            && (forall m :: 0 < m < |p| ==> p[m - 1].end.value < p[m].start.value)
  {
    var p := Partition(g, capacity, cells);
    var closers := Closers(cells, capacity);
    var n := |cells|;
    ShardBounds(g, capacity, cells);
    forall m | 0 < m < |p|
      ensures p[m - 1].end.value < p[m].start.value
    {
      ConsecutiveBounds(cells, closers, p, m);
    }
  }

  /** Over ascending cells, shard `m - 1` ends below the start of shard `m`. */
  lemma ConsecutiveBounds(cells: ScoredCells, closers: seq<nat>, p: seq<Geoshard>, m: nat)
    requires |cells| > 0 && Ascending(cells) && ValidClosers(closers, 0, |cells|)
    requires BoundsMatch(cells, closers, p) && 0 < m < |p|
    ensures p[m - 1].end.value < p[m].start.value
  {
    var n := |cells|;
    ValidSegment(closers, 0, n, m);
    var k := if m < |closers| then SegStart(closers, 0, m) else n - 1;
    assert closers[m - 1] < k < n;
    assert p[m - 1].end.value == cells[closers[m - 1]].0;
    assert p[m].start.value == cells[k].0;
  }

  /** Shard `m` is named `geoshard_user_index_m`, so no two shards share a name. */
  lemma PartitionNames(g: Geometry, capacity: int, cells: ScoredCells)
    requires |cells| > 0
    ensures var p := Partition(g, capacity, cells);
            && (forall m :: 0 <= m < |p| ==> Name(p[m]) == ShardName(m))
            && (forall m, m' :: 0 <= m < m' < |p| ==> Name(p[m]) != Name(p[m']))
  {
    var p := Partition(g, capacity, cells);
    PartitionShape(g, capacity, cells);
    assert forall m :: 0 <= m < |p| ==> p[m].index == m;
    forall m, m' | 0 <= m < m' < |p|
      ensures Name(p[m]) != Name(p[m'])
    {
      if Name(p[m]) == Name(p[m']) {
        ShardNameInjective(m, m');
      }
    }
  }

  lemma ClosedShardFits(g: Geometry, capacity: int, cells: ScoredCells, m: nat)
    requires |cells| > 0 && m < |Closers(cells, capacity)|
    ensures var shard := ClosedShard(g, cells, Closers(cells, capacity), 0, 0, 0, g.level(cells[0].0), m);
            shard.cellCount >= 0 && (shard.cellCount > 0 ==> shard.cellScore < capacity)
  {
    var closers := Closers(cells, capacity);
    ClosersGreedy(cells, capacity, 0, 0, m);
    var start := SegStart(closers, 0, m);
    ValidSegment(closers, 0, |cells|, m);
    if start < closers[m] {
      assert Fits(cells, capacity, start, SegSeed(cells, closers, 0, m), closers[m] - 1);
    }
  }

  lemma TrailingShardFits(g: Geometry, capacity: int, cells: ScoredCells)
    requires |cells| > 0
    requires var closers := Closers(cells, capacity); SegStart(closers, 0, |closers|) < |cells|
    ensures var shard := TrailingShard(g, cells, Closers(cells, capacity), 0, 0, 0, g.level(cells[0].0));
            shard.cellCount > 0 && shard.cellScore < capacity
  {
    var closers := Closers(cells, capacity);
    ClosersGreedy(cells, capacity, 0, 0, |closers|);
    var start := SegStart(closers, 0, |closers|);
    assert Fits(cells, capacity, start, SegSeed(cells, closers, 0, |closers|), |cells| - 1);
  }

  /**
   * A shard that counted a cell carries a load below the capacity. (A shard with no counted cell
   * holds only the score carried over from its closing predecessor, which can exceed it.)
   */
  lemma PartitionCapacity(g: Geometry, capacity: int, cells: ScoredCells)
    requires |cells| > 0
    ensures var p := Partition(g, capacity, cells);
            forall m :: 0 <= m < |p| ==> p[m].cellCount >= 0 && (p[m].cellCount > 0 ==> p[m].cellScore < capacity)
  {
    var p := Partition(g, capacity, cells);
    var closers := Closers(cells, capacity);
    PartitionShape(g, capacity, cells);
    forall m | 0 <= m < |p|
      ensures p[m].cellCount >= 0 && (p[m].cellCount > 0 ==> p[m].cellScore < capacity)
    {
      if m < |closers| {
        ClosedShardFits(g, capacity, cells, m);
      } else {
        TrailingShardFits(g, capacity, cells);
      }
    }
  }

  /** Sum of the shard loads. */
  function TotalLoad(shards: seq<Geoshard>): int
  {
    if shards == [] then 0 else shards[0].cellScore + TotalLoad(shards[1..])
  }

  /** Sum of the shard cell counts. */
  function TotalCount(shards: seq<Geoshard>): int
  {
    if shards == [] then 0 else shards[0].cellCount + TotalCount(shards[1..])
  }

  /** The cut of `cells[from..]`, one step: its first shard, then the cut after that shard. */
  lemma SegmentsUnfold(g: Geometry, cells: ScoredCells, capacity: int, from: nat, seed: int, index: nat, level: Level)
    requires from <= |cells|
    ensures var r := Segments(g, cells, capacity, from, seed, index, level);
            var j := FirstClose(cells, capacity, from, seed, from);
            && (j < |cells| ==>
                  && r[0].cellCount == j - from && r[0].cellScore == seed + ScoreSum(cells, from, j)
                  && r[1..] == Segments(g, cells, capacity, j + 1, cells[j].1, index + 1, g.level(cells[j].0)))
            && (j == |cells| && from < |cells| ==>
                  && r[0].cellCount == |cells| - from + 1 && r[0].cellScore == seed + ScoreSum(cells, from, |cells|)
                  && r[1..] == [])
            && (from == |cells| ==> r == [])
  {
  }

  /** Load accounting for the cut of `cells[from..]`, the first shard opening with load `seed`. */
  ghost predicate LoadMatches(g: Geometry, cells: ScoredCells, capacity: int, from: nat, seed: int,
                              index: nat, level: Level)
    requires from < |cells|
  {
    var dropped := if HasTrailing(cells, capacity, from, seed) then 0 else cells[|cells| - 1].1;
    TotalLoad(Segments(g, cells, capacity, from, seed, index, level)) == seed + ScoreSum(cells, from, |cells|) - dropped
  }

  lemma LoadStep(g: Geometry, cells: ScoredCells, capacity: int, from: nat, seed: int, index: nat, level: Level)
    requires from < |cells|
    requires var j := FirstClose(cells, capacity, from, seed, from);
             j + 1 < |cells| ==> LoadMatches(g, cells, capacity, j + 1, cells[j].1, index + 1, g.level(cells[j].0))
    ensures LoadMatches(g, cells, capacity, from, seed, index, level)
  {
    var j := FirstClose(cells, capacity, from, seed, from);
    var r := Segments(g, cells, capacity, from, seed, index, level);
    SegmentsUnfold(g, cells, capacity, from, seed, index, level);
    ClosersUnfold(cells, capacity, from, seed);
    if j < |cells| {
      var rest := ClosersFrom(cells, capacity, j + 1, cells[j].1);
      SegStartShift(j, rest, from, |rest|);
      ScoreSumSplit(cells, from, j + 1, |cells|);
      if j + 1 == |cells| {
        SegmentsUnfold(g, cells, capacity, j + 1, cells[j].1, index + 1, g.level(cells[j].0));
      }
    }
  }

  lemma {:induction false} SegmentsLoad(g: Geometry, cells: ScoredCells, capacity: int, from: nat, seed: int,
                                        index: nat, level: Level)
    requires from < |cells|
    ensures LoadMatches(g, cells, capacity, from, seed, index, level)
    decreases |cells| - from
  {
    var j := FirstClose(cells, capacity, from, seed, from);
    if j + 1 < |cells| {
      SegmentsLoad(g, cells, capacity, j + 1, cells[j].1, index + 1, g.level(cells[j].0));
    }
    LoadStep(g, cells, capacity, from, seed, index, level);
  }

  /** Cell accounting for the cut of `cells[from..]`. */
  ghost predicate CountMatches(g: Geometry, cells: ScoredCells, capacity: int, from: nat, seed: int,
                               index: nat, level: Level)
    requires from <= |cells|
  {
    var trailing := if HasTrailing(cells, capacity, from, seed) then 1 else 0;
    TotalCount(Segments(g, cells, capacity, from, seed, index, level))
    == |cells| - from - |ClosersFrom(cells, capacity, from, seed)| + trailing
  }

  lemma CountStep(g: Geometry, cells: ScoredCells, capacity: int, from: nat, seed: int, index: nat, level: Level)
    requires from <= |cells|
    requires var j := FirstClose(cells, capacity, from, seed, from);
             j < |cells| ==> CountMatches(g, cells, capacity, j + 1, cells[j].1, index + 1, g.level(cells[j].0))
    ensures CountMatches(g, cells, capacity, from, seed, index, level)
  {
    var j := FirstClose(cells, capacity, from, seed, from);
    SegmentsUnfold(g, cells, capacity, from, seed, index, level);
    ClosersUnfold(cells, capacity, from, seed);
    if j < |cells| {
      var rest := ClosersFrom(cells, capacity, j + 1, cells[j].1);
      SegStartShift(j, rest, from, |rest|);
    }
  }

  lemma {:induction false} SegmentsCount(g: Geometry, cells: ScoredCells, capacity: int, from: nat, seed: int,
                                         index: nat, level: Level)
    requires from <= |cells|
    ensures CountMatches(g, cells, capacity, from, seed, index, level)
    decreases |cells| - from
  {
    var j := FirstClose(cells, capacity, from, seed, from);
    if j < |cells| {
      SegmentsCount(g, cells, capacity, j + 1, cells[j].1, index + 1, g.level(cells[j].0));
    }
    CountStep(g, cells, capacity, from, seed, index, level);
  }

  /**
   * Load accounting: the shard loads add up to the total score of the cells, except that when the
   * last cell closes a shard its score, carried to a shard that is never emitted, is lost.
   */
  lemma PartitionLoad(g: Geometry, capacity: int, cells: ScoredCells)
    requires |cells| > 0
    ensures var closers := Closers(cells, capacity);
            var lastCloses := |closers| > 0 && closers[|closers| - 1] == |cells| - 1;
            TotalLoad(Partition(g, capacity, cells))
            == ScoreSum(cells, 0, |cells|) - (if lastCloses then cells[|cells| - 1].1 else 0)
  {
    SegmentsLoad(g, cells, capacity, 0, 0, 0, g.level(cells[0].0));
  }

  /**
   * Cell accounting: closing cells are not counted, and the trailing shard, when there is one,
   * counts one cell more than it received.
   */
  lemma PartitionCount(g: Geometry, capacity: int, cells: ScoredCells)
    requires |cells| > 0
    ensures var closers := Closers(cells, capacity);
            var p := Partition(g, capacity, cells);
            TotalCount(p) == |cells| - |closers| + (if |p| > |closers| then 1 else 0)
  {
    SegmentsCount(g, cells, capacity, 0, 0, 0, g.level(cells[0].0));
    SegmentsLength(g, cells, capacity, 0, 0, 0, g.level(cells[0].0));
  }

  /** No score is negative. */
  predicate NonNegativeScores(cells: ScoredCells)
  {
    forall i :: 0 <= i < |cells| ==> cells[i].1 >= 0
  }

  /**
   * When no cell fits (a capacity of zero or less, no negative score), every cell closes a shard of
   * its own, which counts no cell and carries the score of the cell before it.
   */
  lemma {:induction false} SegmentsNothingFits(g: Geometry, cells: ScoredCells, capacity: int, from: nat, seed: int,
                                               index: nat, level: Level)
    requires from <= |cells| && capacity <= 0 && seed >= 0 && NonNegativeScores(cells)
    ensures var r := Segments(g, cells, capacity, from, seed, index, level);
            && |r| == |cells| - from
            && (forall m :: 0 <= m < |r| ==>
                  && r[m].cellCount == 0
                  && r[m].start == r[m].end == Some(cells[from + m].0)
                  && r[m].cellScore == (if m == 0 then seed else cells[from + m - 1].1))
    decreases |cells| - from
  {
    if from < |cells| {
      assert !Fits(cells, capacity, from, seed, from);
      assert FirstClose(cells, capacity, from, seed, from) == from;
      var level' := g.level(cells[from].0);
      var tail := Segments(g, cells, capacity, from + 1, cells[from].1, index + 1, level');
      SegmentsNothingFits(g, cells, capacity, from + 1, cells[from].1, index + 1, level');
      var r := Segments(g, cells, capacity, from, seed, index, level);
      assert r == [Geoshard(index, level, Some(cells[from].0), Some(cells[from].0), 0, seed)] + tail;
      forall m | 0 < m < |r|
        ensures r[m].cellCount == 0 && r[m].start == r[m].end == Some(cells[from + m].0)
        ensures r[m].cellScore == cells[from + m - 1].1
      {
        assert r[m] == tail[m - 1];
        assert (from + 1) + (m - 1) == from + m;
      }
    }
  }

  /**
   * With no user every score is zero and the only candidate capacity is zero, so the cut has one
   * shard per cell, each with no counted cell, bounded by that one cell.
   */
  lemma PartitionNothingFits(g: Geometry, capacity: int, cells: ScoredCells)
    requires |cells| > 0 && capacity <= 0 && NonNegativeScores(cells)
    ensures var p := Partition(g, capacity, cells);
            && |p| == |cells|
            && (forall m :: 0 <= m < |p| ==> p[m].cellCount == 0 && p[m].start == p[m].end == Some(cells[m].0))
  {
    var p := Segments(g, cells, capacity, 0, 0, 0, g.level(cells[0].0));
    SegmentsNothingFits(g, cells, capacity, 0, 0, 0, g.level(cells[0].0));
    forall m | 0 <= m < |p|
      ensures p[m].cellCount == 0 && p[m].start == p[m].end == Some(cells[m].0)
    {
      assert p[m].start == Some(cells[0 + m].0);
    }
  }
}
