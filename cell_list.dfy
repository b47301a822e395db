/**
 * The cell list: every S2 cell at the storage level, found by a flood fill over the
 * neighbour graph from the cell holding (0, 0), then scored by counting users per cell.
 */
module CellLists {
  import opened Wrappers
  import opened S2

  /** `CellList`: the storage level and an ordered map from cell to score. */
  datatype CellList = CellList(storageLevel: Level, cellList: map<CellId, int>)

  // ---------------------------------------------------------------------------
  // Reachability in the neighbour graph at one level
  // ---------------------------------------------------------------------------

  /** `p` is a walk in the neighbour graph: each cell is a neighbour of the one before. */
  ghost predicate IsPath(g: Geometry, level: Level, p: seq<CellId>)
  {
    |p| > 0 && forall i :: 0 <= i < |p| - 1 ==> p[i + 1] in g.allNeighbors(p[i], level)
  }

  ghost predicate Reachable(g: Geometry, level: Level, from: CellId, to: CellId)
  {
    exists p :: IsPath(g, level, p) && p[0] == from && p[|p| - 1] == to
  }

  /** Every neighbour of a cell in `s` is in `s`. */
  ghost predicate Closed(g: Geometry, level: Level, s: set<CellId>)
  {
    forall c, n :: c in s && n in g.allNeighbors(c, level) ==> n in s
  }

  lemma ReachableFromItself(g: Geometry, level: Level, c: CellId)
    ensures Reachable(g, level, c, c)
  {
    assert IsPath(g, level, [c]);
  }

  lemma ReachableStep(g: Geometry, level: Level, seed: CellId, c: CellId, n: CellId)
    requires Reachable(g, level, seed, c)
    requires n in g.allNeighbors(c, level)
    ensures Reachable(g, level, seed, n)
  {
    var p :| IsPath(g, level, p) && p[0] == seed && p[|p| - 1] == c;
    var q := p + [n];
    assert forall i :: 0 <= i < |q| - 1 ==> q[i + 1] in g.allNeighbors(q[i], level) by {
      forall i | 0 <= i < |q| - 1
        ensures q[i + 1] in g.allNeighbors(q[i], level)
      {
        if i < |p| - 1 {
          assert q[i] == p[i] && q[i + 1] == p[i + 1];
        }
      }
    }
    assert IsPath(g, level, q) && q[0] == seed && q[|q| - 1] == n;
  }

  /** A walk that starts in a neighbour-closed set never leaves it. */
  lemma {:induction false} PathStaysInClosedSet(g: Geometry, level: Level, p: seq<CellId>, s: set<CellId>)
    requires IsPath(g, level, p) && p[0] in s
    requires Closed(g, level, s)
    ensures p[|p| - 1] in s
    decreases |p|
  {
    if |p| > 1 {
      var q := p[..|p| - 1];
      assert IsPath(g, level, q) by {
        forall i | 0 <= i < |q| - 1
          ensures q[i + 1] in g.allNeighbors(q[i], level)
        {
          assert q[i + 1] == p[i + 1] && q[i] == p[i];
        }
      }
      PathStaysInClosedSet(g, level, q, s);
      var c, n := p[|p| - 2], p[|p| - 1];
      assert c == q[|q| - 1] && c in s;
      assert n in g.allNeighbors(c, level);
      assert c in s && n in g.allNeighbors(c, level) ==> n in s;
    }
  }

  /** A neighbour-closed set holding `seed` holds every cell reachable from `seed`. */
  lemma ClosedSetHoldsReachable(g: Geometry, level: Level, seed: CellId, s: set<CellId>, c: CellId)
    requires seed in s && Closed(g, level, s)
    requires Reachable(g, level, seed, c)
    ensures c in s
  {
    var p :| IsPath(g, level, p) && p[0] == seed && p[|p| - 1] == c;
    PathStaysInClosedSet(g, level, p, s);
  }

  // ---------------------------------------------------------------------------
  // CellList::gather_cells and CellList::new
  // ---------------------------------------------------------------------------

  /** Every neighbour of a cell already in `seen` is in `seen` or still on the stack. */
  ghost predicate Frontier(g: Geometry, level: Level, seen: set<CellId>, stack: seq<CellId>)
  {
    forall c, n :: c in seen && n in g.allNeighbors(c, level) ==> n in seen || n in stack
  }

  ghost predicate AllReachable(g: Geometry, level: Level, seed: CellId, cells: seq<CellId>)
  {
    forall i :: 0 <= i < |cells| ==> Reachable(g, level, seed, cells[i])
  }

  /** Popping a seen cell, or popping an unseen one and pushing its neighbours, keeps the frontier. */
  lemma FrontierStep(g: Geometry, level: Level, seen: set<CellId>, rest: seq<CellId>, x: CellId)
    requires Frontier(g, level, seen, rest + [x])
    ensures x in seen ==> Frontier(g, level, seen, rest)
    ensures Frontier(g, level, seen + {x}, rest + g.allNeighbors(x, level))
  {
    forall c, n | c in seen && n in g.allNeighbors(c, level)
      ensures n in seen || n in rest || n == x
    {
      assert n in seen || n in rest + [x];
    }
    forall c, n | c in seen + {x} && n in g.allNeighbors(c, level)
      ensures n in seen + {x} || n in rest + g.allNeighbors(x, level)
    {
      if c in seen {
        assert n in seen || n in rest + [x];
      } else {
        assert n in g.allNeighbors(x, level);
      }
    }
  }

  lemma PushNeighbors(g: Geometry, level: Level, seed: CellId, rest: seq<CellId>, x: CellId)
    requires AllReachable(g, level, seed, rest)
    requires Reachable(g, level, seed, x)
    ensures AllReachable(g, level, seed, rest + g.allNeighbors(x, level))
  {
    var ns := g.allNeighbors(x, level);
    forall i | 0 <= i < |rest + ns|
      ensures Reachable(g, level, seed, (rest + ns)[i])
    {
      if i >= |rest| {
        ReachableStep(g, level, seed, x, ns[i - |rest|]);
      }
    }
  }

  lemma LastSplit(s: seq<CellId>)
    requires |s| > 0
    ensures s == s[..|s| - 1] + [s[|s| - 1]]
  {
  }

  /** What `gather_cells` keeps true of its stack between two pops. */
  ghost predicate StackInvariant(g: Geometry, level: Level, seed: CellId, universe: set<CellId>,
                                 seen: set<CellId>, stack: seq<CellId>)
  {
    && seen <= universe
    && (forall i :: 0 <= i < |stack| ==> stack[i] in universe)
    && (seed in seen || seed in stack)
    && AllReachable(g, level, seed, stack)
    && Frontier(g, level, seen, stack)
  }

  /** What `gather_cells` keeps true of `seen` between two pops; `order` logs the insertions. */
  ghost predicate SeenInvariant(g: Geometry, level: Level, seed: CellId, seen: map<CellId, int>, order: seq<CellId>)
  {
    && (forall c :: c in seen ==> seen[c] == 0)
    && (forall c :: c in seen ==> Reachable(g, level, seed, c))
    && |order| == |seen.Keys|
    && (forall c :: c in seen <==> c in order)
    && (forall i, j :: 0 <= i < j < |order| ==> order[i] != order[j])
  }

  /** Popping a cell that is already in `seen` only shortens the stack. */
  lemma PopSeen(g: Geometry, level: Level, seed: CellId, universe: set<CellId>,
                seen: set<CellId>, rest: seq<CellId>, x: CellId)
    requires StackInvariant(g, level, seed, universe, seen, rest + [x])
    requires x in seen
    ensures StackInvariant(g, level, seed, universe, seen, rest)
  {
    FrontierStep(g, level, seen, rest, x);
    assert forall i :: 0 <= i < |rest| ==> rest[i] == (rest + [x])[i];
  }

  lemma PushedStaysInUniverse(g: Geometry, level: Level, universe: set<CellId>, rest: seq<CellId>, x: CellId)
    requires forall i :: 0 <= i < |rest + [x]| ==> (rest + [x])[i] in universe
    requires Closed(g, level, universe)
    ensures x in universe
    ensures forall i :: 0 <= i < |rest + g.allNeighbors(x, level)| ==> (rest + g.allNeighbors(x, level))[i] in universe
  {
    assert (rest + [x])[|rest|] == x;
    var ns := g.allNeighbors(x, level);
    forall i | 0 <= i < |rest + ns|
      ensures (rest + ns)[i] in universe
    {
      if i >= |rest| {
        assert (rest + ns)[i] == ns[i - |rest|] && ns[i - |rest|] in ns;
      } else {
        assert (rest + [x])[i] == rest[i];
      }
    }
  }

  lemma InsertionOrder(seen: map<CellId, int>, order: seq<CellId>, x: CellId)
    requires |order| == |seen.Keys| && (forall c :: c in seen <==> c in order)
    requires forall i, j :: 0 <= i < j < |order| ==> order[i] != order[j]
    requires x !in seen
    ensures |order + [x]| == |seen[x := 0].Keys| && (forall c :: c in seen[x := 0] <==> c in order + [x])
    ensures forall i, j :: 0 <= i < j < |order + [x]| ==> (order + [x])[i] != (order + [x])[j]
  {
    assert seen[x := 0].Keys == seen.Keys + {x};
    var order' := order + [x];
    forall i, j | 0 <= i < j < |order'|
      ensures order'[i] != order'[j]
    {
      if j == |order| {
        assert order'[i] == order[i] && order[i] in seen;
      } else {
        assert order'[i] == order[i] && order'[j] == order[j];
      }
    }
  }

  lemma PopUnseenReachable(g: Geometry, level: Level, seed: CellId, rest: seq<CellId>, x: CellId)
    requires AllReachable(g, level, seed, rest + [x])
    ensures Reachable(g, level, seed, x)
    ensures AllReachable(g, level, seed, rest + g.allNeighbors(x, level))
  {
    assert (rest + [x])[|rest|] == x;
    assert AllReachable(g, level, seed, rest) by {
      forall i | 0 <= i < |rest|
        ensures Reachable(g, level, seed, rest[i])
      {
        assert (rest + [x])[i] == rest[i];
      }
    }
    PushNeighbors(g, level, seed, rest, x);
  }

  lemma SeedKept(seed: CellId, seen: set<CellId>, rest: seq<CellId>, x: CellId, pushed: seq<CellId>)
    requires seed in seen || seed in rest + [x]
    ensures seed in seen + {x} || seed in rest + pushed
  {
  }

  /** Popping an unseen cell pushes all its neighbours. */
  lemma PopUnseenStack(g: Geometry, level: Level, seed: CellId, universe: set<CellId>,
                       seen: set<CellId>, rest: seq<CellId>, x: CellId)
    requires StackInvariant(g, level, seed, universe, seen, rest + [x])
    requires Closed(g, level, universe)
    requires x !in seen
    ensures Reachable(g, level, seed, x)
    ensures StackInvariant(g, level, seed, universe, seen + {x}, rest + g.allNeighbors(x, level))
    ensures |universe - (seen + {x})| < |universe - seen|
  {
    PushedStaysInUniverse(g, level, universe, rest, x);
    SeedKept(seed, seen, rest, x, g.allNeighbors(x, level));
    FrontierStep(g, level, seen, rest, x);
    PopUnseenReachable(g, level, seed, rest, x);
    assert universe - (seen + {x}) < universe - seen by {
      assert x in universe - seen;
    }
  }

  /** ... and inserts the popped cell into `seen` with score 0. */
  lemma PopUnseenSeen(g: Geometry, level: Level, seed: CellId, seen: map<CellId, int>, order: seq<CellId>, x: CellId)
    requires SeenInvariant(g, level, seed, seen, order)
    requires Reachable(g, level, seed, x)
    requires x !in seen
    ensures seen[x := 0].Keys == seen.Keys + {x}
    ensures SeenInvariant(g, level, seed, seen[x := 0], order + [x])
  {
    assert seen[x := 0].Keys == seen.Keys + {x};
    InsertionOrder(seen, order, x);
  }

  /** With an empty stack, the seen set is closed and is exactly the reachable set. */
  lemma GatherDone(g: Geometry, level: Level, seed: CellId, universe: set<CellId>,
                   seen: map<CellId, int>, order: seq<CellId>)
    requires StackInvariant(g, level, seed, universe, seen.Keys, [])
    requires SeenInvariant(g, level, seed, seen, order)
    ensures seed in seen
    ensures forall c :: c in seen <==> Reachable(g, level, seed, c)
    ensures Closed(g, level, seen.Keys)
  {
    assert Closed(g, level, seen.Keys);
    forall c | Reachable(g, level, seed, c)
      ensures c in seen
    {
      ClosedSetHoldsReachable(g, level, seed, seen.Keys, c);
    }
  }

  /**
   * `gather_cells`: a depth-first flood fill with an explicit stack. `universe` is the
   * (finite) set of all S2 cells at `storageLevel`; it only bounds the traversal.
   * `order` is the order in which cells were inserted into `seen`.
   */
  method GatherCells(g: Geometry, storageLevel: Level, startingCellId: CellId, ghost universe: set<CellId>)
    returns (seen: map<CellId, int>, ghost order: seq<CellId>)
    requires startingCellId in universe && Closed(g, storageLevel, universe)
    ensures startingCellId in seen
    ensures forall c :: c in seen <==> Reachable(g, storageLevel, startingCellId, c)
    ensures Closed(g, storageLevel, seen.Keys)
    ensures forall c :: c in seen ==> seen[c] == 0
    ensures |order| == |seen.Keys| && (forall c :: c in seen <==> c in order)
    ensures forall i, j :: 0 <= i < j < |order| ==> order[i] != order[j]
  {
    seen := map[];
    order := [];
    var currentStack := [startingCellId];
    ReachableFromItself(g, storageLevel, startingCellId);
    assert StackInvariant(g, storageLevel, startingCellId, universe, seen.Keys, currentStack);
    while |currentStack| > 0
      invariant StackInvariant(g, storageLevel, startingCellId, universe, seen.Keys, currentStack)
      invariant SeenInvariant(g, storageLevel, startingCellId, seen, order)
      decreases |universe - seen.Keys|, |currentStack|
    {
      var currentNeighbor := currentStack[|currentStack| - 1];
      var rest := currentStack[..|currentStack| - 1];
      LastSplit(currentStack);
      if currentNeighbor !in seen {
        PopUnseenStack(g, storageLevel, startingCellId, universe, seen.Keys, rest, currentNeighbor);
        PopUnseenSeen(g, storageLevel, startingCellId, seen, order, currentNeighbor);
        currentStack := rest + g.allNeighbors(currentNeighbor, storageLevel);
        seen := seen[currentNeighbor := 0];
        order := order + [currentNeighbor];
      } else {
        PopSeen(g, storageLevel, startingCellId, universe, seen.Keys, rest, currentNeighbor);
        currentStack := rest;
      }
    }
    GatherDone(g, storageLevel, startingCellId, universe, seen, order);
  }

  /** The seed of the flood fill: the cell at `storageLevel` holding latitude 0, longitude 0. */
  function OriginCell(g: Geometry, storageLevel: Level): CellId
  {
    CellAt(g, LatLng(0.0, 0.0), storageLevel)
  }

  /** `CellList::new`: every cell reachable from the origin cell, each scored 0. */
  method NewCellList(g: Geometry, storageLevel: Level, ghost universe: set<CellId>) returns (r: CellList)
    requires OriginCell(g, storageLevel) in universe && Closed(g, storageLevel, universe)
    ensures r.storageLevel == storageLevel
    ensures OriginCell(g, storageLevel) in r.cellList
    ensures forall c :: c in r.cellList <==> Reachable(g, storageLevel, OriginCell(g, storageLevel), c)
    ensures forall c :: c in r.cellList ==> r.cellList[c] == 0
  {
    var startingCellId := g.fromLatLng(LatLng(0.0, 0.0));
    var cells, _ := GatherCells(g, storageLevel, g.parent(startingCellId, storageLevel), universe);
    r := CellList(storageLevel, cells);
  }

  // ---------------------------------------------------------------------------
  // UserCountScorer::score_cell_list
  // ---------------------------------------------------------------------------

  /** How many of `users` lie in cell `k` at `level`. */
  function UserCount(g: Geometry, level: Level, users: seq<LatLng>, k: CellId): (n: nat)
    ensures n <= |users|
  {
    if users == [] then 0
    else UserCount(g, level, users[..|users| - 1], k) + (if CellAt(g, users[|users| - 1], level) == k then 1 else 0)
  }

  /** Every user lies in a cell of `cells`. */
  predicate AllUsersKnown(g: Geometry, level: Level, users: seq<LatLng>, cells: set<CellId>)
  {
    forall i :: 0 <= i < |users| ==> CellAt(g, users[i], level) in cells
  }

  /**
   * `UserCountScorer::score_cell_list`: adds 1 to the score of each user's cell. The
   * source unwraps the map lookup, so a user whose cell is not in the list panics; that
   * panic is `Err(i)` with `i` the position of the first such user.
   */
  method ScoreCellList(g: Geometry, cellList: CellList, users: seq<LatLng>) returns (r: Result<CellList, nat>)
    ensures r.Ok? <==> AllUsersKnown(g, cellList.storageLevel, users, cellList.cellList.Keys)
    ensures r.Err? ==>
      && r.error < |users|
      && CellAt(g, users[r.error], cellList.storageLevel) !in cellList.cellList
      && AllUsersKnown(g, cellList.storageLevel, users[..r.error], cellList.cellList.Keys)
    ensures r.Ok? ==>
      && r.value.storageLevel == cellList.storageLevel
      && r.value.cellList.Keys == cellList.cellList.Keys
      && forall k :: k in cellList.cellList ==>
           r.value.cellList[k] == cellList.cellList[k] + UserCount(g, cellList.storageLevel, users, k)
  {
    var level := cellList.storageLevel;
    var cells := cellList.cellList;
    for i := 0 to |users|
      invariant cells.Keys == cellList.cellList.Keys
      invariant AllUsersKnown(g, level, users[..i], cells.Keys)
      invariant forall k :: k in cells ==> cells[k] == cellList.cellList[k] + UserCount(g, level, users[..i], k)
    {
      var cellId := CellAt(g, users[i], level);
      if cellId !in cells {
        assert !AllUsersKnown(g, level, users, cellList.cellList.Keys);
        return Err(i);
      }
      assert users[..i + 1][..i] == users[..i];
      cells := cells[cellId := cells[cellId] + 1];
    }
    assert users[..|users|] == users;
    r := Ok(CellList(level, cells));
  }
}
