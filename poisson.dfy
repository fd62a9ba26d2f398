/**
 * The Poisson-disc sampler of Possion.h (poissonDiscSampling): a grid of
 * point indices, a growing point list and a shrinking frontier.
 *
 * The random draws are parameters: the seed point, `pick` (the frontier index
 * drawn in each round, reduced modulo the frontier's size) and `candidate`
 * (the k-th candidate proposed around a frontier point in a round).
 * `cellSize` stands for radius / sqrt(2); the sampler needs only that two
 * points in one cell are too close (2c^2 <= r^2) and that the 5x5 block
 * around a cell reaches every point closer than r (r <= 2c).
 */
module Poisson {
  import opened PoissonGeometry

  /** struct Point at Possion.h:14-17. */
  datatype Point = Point(x: real, y: real, active: bool)

  /** The relation between radius and cell side that the sampler relies on. */
  predicate GoodCells(radius: real, cellSize: real)
  {
    radius > 0.0 && cellSize > 0.0 && 2.0 * cellSize * cellSize <= radius * radius && radius <= 2.0 * cellSize
  }

  /** Inside the window [0, width) x [0, height): the negation of the test at Possion.h:52. */
  predicate InWindow(px: real, py: real, width: nat, height: nat): (b: bool)
    ensures b ==> width > 0 && height > 0
  {
    0.0 <= px < width as real && 0.0 <= py < height as real
  }

  /** Every pair of points is at least `radius` apart. */
  ghost predicate Apart(points: seq<Point>, radius: real)
  {
    forall a, b | 0 <= a < b < |points| ::
      Dist2(points[a].x, points[a].y, points[b].x, points[b].y) >= radius * radius
  }

  /** (qx, qy) is at least `radius` from every point. */
  ghost predicate FarFromAll(points: seq<Point>, qx: real, qy: real, radius: real)
  {
    forall n | 0 <= n < |points| :: Dist2(points[n].x, points[n].y, qx, qy) >= radius * radius
  }

  /** Every grid entry is -1 or an index into points. */
  ghost predicate Indices(grid: array2<int>, points: seq<Point>)
    reads grid
  {
    forall x, y | 0 <= x < grid.Length0 && 0 <= y < grid.Length1 ::
      grid[x, y] == -1 || 0 <= grid[x, y] < |points|
  }

  /** The grid records exactly the points: every non-empty cell holds the index of
      a point that lies in that cell, and every point is recorded in its own cell. */
  ghost predicate Recorded(grid: array2<int>, points: seq<Point>, c: real)
    requires c > 0.0
    reads grid
  {
    && Indices(grid, points)
    && (forall x, y | 0 <= x < grid.Length0 && 0 <= y < grid.Length1 && grid[x, y] != -1 ::
          Cell(points[grid[x, y]].x, c) == x && Cell(points[grid[x, y]].y, c) == y)
    && (forall n | 0 <= n < |points| ::
          && 0 <= Cell(points[n].x, c) < grid.Length0
          && 0 <= Cell(points[n].y, c) < grid.Length1
          && grid[Cell(points[n].x, c), Cell(points[n].y, c)] == n)
  }

  /** Cell (x, y) raises no objection to (qx, qy): it is outside the grid, empty,
      or holds a point at least `radius` away (the test at Possion.h:64-70). */
  ghost predicate ClearAt(grid: array2<int>, points: seq<Point>, x: int, y: int, qx: real, qy: real, radius: real)
    reads grid
  {
    (0 <= x < grid.Length0 && 0 <= y < grid.Length1 && 0 <= grid[x, y] < |points|) ==>
      Dist2(points[grid[x, y]].x, points[grid[x, y]].y, qx, qy) >= radius * radius
  }

  /** Every cell of the 5x5 block around (gx, gy) is clear for (qx, qy). */
  ghost predicate BlockClear(grid: array2<int>, points: seq<Point>, gx: int, gy: int, qx: real, qy: real, radius: real)
    reads grid
  {
    forall x, y | gx - 2 <= x <= gx + 2 && gy - 2 <= y <= gy + 2 :: ClearAt(grid, points, x, y, qx, qy, radius)
  }

  /** The grid of Possion.h:25-28: ceil(width / c) x ceil(height / c) cells, all -1. */
  method NewGrid(width: nat, height: nat, cellSize: real) returns (grid: array2<int>)
    requires cellSize > 0.0
    ensures fresh(grid)
    ensures grid.Length0 == Ceil(width as real / cellSize) && grid.Length1 == Ceil(height as real / cellSize)
    ensures forall x, y | 0 <= x < grid.Length0 && 0 <= y < grid.Length1 :: grid[x, y] == -1
  {
    DivNonNeg(width as real, cellSize);
    DivNonNeg(height as real, cellSize);
    var gridWidth := Ceil(width as real / cellSize);
    var gridHeight := Ceil(height as real / cellSize);
    grid := new int[gridWidth, gridHeight]((x, y) => -1);
  }

  /** The neighbour scan of Possion.h:56-77: walks the bounds-clipped 5x5 block
      around the candidate's cell and stops at the first point closer than
      `radius`. The answer is exactly whether the block is clear. */
  method ScanNeighbours(grid: array2<int>, points: seq<Point>, qx: real, qy: real, radius: real, cellSize: real)
    returns (valid: bool)
    requires cellSize > 0.0 && Indices(grid, points)
    ensures valid <==> BlockClear(grid, points, Cell(qx, cellSize), Cell(qy, cellSize), qx, qy, radius)
  {
    var gridX := Cell(qx, cellSize);
    var gridY := Cell(qy, cellSize);
    valid := true;
    ghost var wx, wy := gridX, gridY;
    var dx := -2;
    while dx <= 2 && valid
      invariant -2 <= dx <= 3
      invariant valid ==> forall x, y | gridX - 2 <= x < gridX + dx && gridY - 2 <= y <= gridY + 2 ::
        ClearAt(grid, points, x, y, qx, qy, radius)
      invariant !valid ==>
        (gridX - 2 <= wx <= gridX + 2 && gridY - 2 <= wy <= gridY + 2 && !ClearAt(grid, points, wx, wy, qx, qy, radius))
    {
      var dy := -2;
      ghost var column := gridX + dx;
      while dy <= 2
        invariant -2 <= dy <= 3 && valid
        invariant forall x, y | gridX - 2 <= x < gridX + dx && gridY - 2 <= y <= gridY + 2 ::
          ClearAt(grid, points, x, y, qx, qy, radius)
        invariant forall y | gridY - 2 <= y < gridY + dy :: ClearAt(grid, points, column, y, qx, qy, radius)
      {
        var checkX := gridX + dx;
        var checkY := gridY + dy;
        if checkX >= 0 && checkX < grid.Length0 && checkY >= 0 && checkY < grid.Length1 {
          var pointIdx := grid[checkX, checkY];
          if pointIdx != -1 {
            var existing := points[pointIdx];
            var ex := existing.x - qx;
            var ey := existing.y - qy;
            if ex * ex + ey * ey < radius * radius {
              valid := false;
              wx, wy := checkX, checkY;
              break;
            }
          }
        }
        dy := dy + 1;
      }
      dx := dx + 1;
    }
  }

  /** A clear block is exactly "no point closer than radius": the 5x5 scan is
      enough because r <= 2c, and it objects only to points that are too close. */
  lemma BlockClearIffFar(grid: array2<int>, points: seq<Point>, qx: real, qy: real, radius: real, c: real)
    requires GoodCells(radius, c) && Recorded(grid, points, c)
    ensures BlockClear(grid, points, Cell(qx, c), Cell(qy, c), qx, qy, radius) <==> FarFromAll(points, qx, qy, radius)
  {
    if BlockClear(grid, points, Cell(qx, c), Cell(qy, c), qx, qy, radius) {
      forall n | 0 <= n < |points|
        ensures Dist2(points[n].x, points[n].y, qx, qy) >= radius * radius
      {
        FarIfClear(grid, points, n, qx, qy, radius, c);
      }
    }
  }

  /** A recorded point closer than radius lies in the block, so a clear block
      rules it out. */
  lemma FarIfClear(grid: array2<int>, points: seq<Point>, n: int, qx: real, qy: real, radius: real, c: real)
    requires GoodCells(radius, c) && 0 <= n < |points|
    requires 0 <= Cell(points[n].x, c) < grid.Length0 && 0 <= Cell(points[n].y, c) < grid.Length1
    requires grid[Cell(points[n].x, c), Cell(points[n].y, c)] == n
    requires BlockClear(grid, points, Cell(qx, c), Cell(qy, c), qx, qy, radius)
    ensures Dist2(points[n].x, points[n].y, qx, qy) >= radius * radius
  {
    var p := points[n];
    NearInBlock(p.x, p.y, qx, qy, radius, c);
    assert Dist2(p.x, p.y, qx, qy) < radius * radius ==> ClearAt(grid, points, Cell(p.x, c), Cell(p.y, c), qx, qy, radius);
  }

  /** Possion.h:80-83: store a candidate that lies in the window and far from every
      point, append it to points and to the frontier, and record its index in its
      own cell, which was empty. Its cell leaves the free cells. */
  method Accept(grid: array2<int>, points: seq<Point>, active: seq<Point>, ghost free: set<(int, int)>,
                qx: real, qy: real, width: nat, height: nat, radius: real, cellSize: real)
    returns (points': seq<Point>, active': seq<Point>, ghost free': set<(int, int)>)
    requires GoodCells(radius, cellSize) && Sampled(grid, points, free, width, height, radius, cellSize)
    requires InWindow(qx, qy, width, height) && FarFromAll(points, qx, qy, radius)
    modifies grid
    ensures points' == points + [Point(qx, qy, true)] && active' == active + [Point(qx, qy, true)]
    ensures 0 <= Cell(qx, cellSize) < grid.Length0 && 0 <= Cell(qy, cellSize) < grid.Length1
    ensures old(grid[Cell(qx, cellSize), Cell(qy, cellSize)]) == -1
    ensures grid[Cell(qx, cellSize), Cell(qy, cellSize)] == |points|
    ensures forall x, y | 0 <= x < grid.Length0 && 0 <= y < grid.Length1 && (x, y) != (Cell(qx, cellSize), Cell(qy, cellSize)) ::
      grid[x, y] == old(grid[x, y])
    ensures Sampled(grid, points', free', width, height, radius, cellSize) && |free'| == |free| - 1
  {
    CellInGrid(qx, cellSize, width);
    CellInGrid(qy, cellSize, height);
    FarCellEmpty(grid, points, qx, qy, radius, cellSize);
    ApartAppend(points, qx, qy, radius);
    var newPoint := Point(qx, qy, true);
    points' := points + [newPoint];
    active' := active + [newPoint];
    grid[Cell(qx, cellSize), Cell(qy, cellSize)] := |points'| - 1;
    free' := free - {(Cell(qx, cellSize), Cell(qy, cellSize))};
  }

  /** Adding a point far from all others keeps the points apart. */
  lemma ApartAppend(points: seq<Point>, qx: real, qy: real, radius: real)
    requires Apart(points, radius) && FarFromAll(points, qx, qy, radius)
    ensures Apart(points + [Point(qx, qy, true)], radius)
  {
    var q := points + [Point(qx, qy, true)];
    forall a, b | 0 <= a < b < |q|
      ensures Dist2(q[a].x, q[a].y, q[b].x, q[b].y) >= radius * radius
    {
      if b < |points| {
        assert q[a] == points[a] && q[b] == points[b];
      } else {
        assert q[a] == points[a] && q[b] == Point(qx, qy, true);
      }
    }
  }

  /** The cell of a point far from all recorded points is empty. */
  lemma FarCellEmpty(grid: array2<int>, points: seq<Point>, qx: real, qy: real, radius: real, c: real)
    requires GoodCells(radius, c) && Recorded(grid, points, c) && FarFromAll(points, qx, qy, radius)
    requires 0 <= Cell(qx, c) < grid.Length0 && 0 <= Cell(qy, c) < grid.Length1
    ensures grid[Cell(qx, c), Cell(qy, c)] == -1
  {
    var x, y := Cell(qx, c), Cell(qy, c);
    if grid[x, y] != -1 {
      var n := grid[x, y];
      SameCellTooClose(points[n].x, points[n].y, qx, qy, c, radius);
    }
  }

  /** Possion.h:34-39: the seed point is stored at index 0 in its cell of the empty
      grid, and is the whole frontier. */
  method Seed(grid: array2<int>, seedX: real, seedY: real, width: nat, height: nat, cellSize: real)
    returns (points: seq<Point>, active: seq<Point>)
    requires cellSize > 0.0 && InWindow(seedX, seedY, width, height)
    requires grid.Length0 == Ceil(width as real / cellSize) && grid.Length1 == Ceil(height as real / cellSize)
    requires forall x, y | 0 <= x < grid.Length0 && 0 <= y < grid.Length1 :: grid[x, y] == -1
    modifies grid
    ensures points == [Point(seedX, seedY, true)] && active == points
    ensures Recorded(grid, points, cellSize)
    ensures 0 <= Cell(seedX, cellSize) < grid.Length0 && 0 <= Cell(seedY, cellSize) < grid.Length1
    ensures forall x, y | 0 <= x < grid.Length0 && 0 <= y < grid.Length1 ::
      grid[x, y] == if (x, y) == (Cell(seedX, cellSize), Cell(seedY, cellSize)) then 0 else -1
  {
    var first := Point(seedX, seedY, true);
    var firstGridX := Cell(first.x, cellSize);
    var firstGridY := Cell(first.y, cellSize);
    CellInGrid(seedX, cellSize, width);
    CellInGrid(seedY, cellSize, height);
    grid[firstGridX, firstGridY] := 0;
    points := [first];
    active := [first];
  }

  /** What holds between rounds of the sampler: the grid has its dimensions and
      records the points, which lie in the window and are apart; `free` holds
      every empty cell, and cells and points together are as many as the grid
      has cells. */
  ghost predicate Sampled(grid: array2<int>, points: seq<Point>, free: set<(int, int)>,
                          width: nat, height: nat, radius: real, c: real)
    requires c > 0.0
    reads grid
  {
    && grid.Length0 == Ceil(width as real / c) && grid.Length1 == Ceil(height as real / c)
    && (forall n | 0 <= n < |points| :: points[n].active && InWindow(points[n].x, points[n].y, width, height))
    && Apart(points, radius) && Recorded(grid, points, c)
    && |points| + |free| == grid.Length0 * grid.Length1
    && (forall x, y | 0 <= x < grid.Length0 && 0 <= y < grid.Length1 && grid[x, y] == -1 :: (x, y) in free)
  }

  /** A candidate the sampler takes: inside the window and at least `radius`
      from every point so far. */
  ghost predicate Acceptable(points: seq<Point>, q: (real, real), radius: real, width: nat, height: nat)
  {
    InWindow(q.0, q.1, width, height) && FarFromAll(points, q.0, q.1, radius)
  }

  /** The attempts loop of Possion.h:44-88 around the frontier point `parent`:
      candidates outside the window are skipped (line 52-54), the first one whose
      block is clear is accepted (line 79-86), and otherwise nothing changes. */
  method Attempts(grid: array2<int>, points: seq<Point>, active: seq<Point>, ghost free: set<(int, int)>, parent: Point, round: nat, k: int,
                  radius: real, cellSize: real, width: nat, height: nat, candidate: (Point, nat, nat) -> (real, real))
    returns (found: bool, points': seq<Point>, active': seq<Point>, ghost attempt: nat, ghost free': set<(int, int)>)
    requires GoodCells(radius, cellSize) && Sampled(grid, points, free, width, height, radius, cellSize)
    modifies grid
    ensures Sampled(grid, points', free', width, height, radius, cellSize)
    ensures found ==> |free'| < |free|
    ensures !found ==> free' == free
    ensures !found ==>
      && points' == points && active' == active
      && (forall x, y | 0 <= x < grid.Length0 && 0 <= y < grid.Length1 :: grid[x, y] == old(grid[x, y]))
      && (forall a: nat | a < k :: !Acceptable(points, candidate(parent, round, a), radius, width, height))
    ensures found ==>
      && attempt < k
      && (forall a: nat | a < attempt :: !Acceptable(points, candidate(parent, round, a), radius, width, height))
      && Acceptable(points, candidate(parent, round, attempt), radius, width, height)
      && var q := Point(candidate(parent, round, attempt).0, candidate(parent, round, attempt).1, true);
      && points' == points + [q] && active' == active + [q]
      && var cx, cy := Cell(q.x, cellSize), Cell(q.y, cellSize);
      && 0 <= cx < grid.Length0 && 0 <= cy < grid.Length1
      && old(grid[cx, cy]) == -1 && grid[cx, cy] == |points|
      && (forall x, y | 0 <= x < grid.Length0 && 0 <= y < grid.Length1 && (x, y) != (cx, cy) :: grid[x, y] == old(grid[x, y]))
  {
    found, points', active', attempt, free' := false, points, active, 0, free;
    var i := 0;
    while i < k
      invariant 0 <= i && points' == points && active' == active
      invariant forall x, y | 0 <= x < grid.Length0 && 0 <= y < grid.Length1 :: grid[x, y] == old(grid[x, y])
      invariant forall a: nat | a < i :: !Acceptable(points, candidate(parent, round, a), radius, width, height)
      decreases k - i
    {
      var (newX, newY) := candidate(parent, round, i);
      if !InWindow(newX, newY, width, height) {
        i := i + 1;
        continue;
      }
      var valid := ScanNeighbours(grid, points, newX, newY, radius, cellSize);
      BlockClearIffFar(grid, points, newX, newY, radius, cellSize);
      if valid {
        points', active', free' := Accept(grid, points, active, free, newX, newY, width, height, radius, cellSize);
        found, attempt := true, i;
        break;
      }
      i := i + 1;
    }
  }

  /** poissonDiscSampling at Possion.h:19-96. The seed is stored at index 0 and in
      its cell (lines 34-39); each round draws a frontier index, tries up to k
      candidates around that point, and drops the point from the frontier when
      none is accepted (lines 41-93). The loop always ends, and the points it
      returns are inside the window, pairwise at least `radius` apart, one per
      cell, and so no more than there are cells. */
  method PoissonDiscSampling(radius: real, k: int, width: nat, height: nat, cellSize: real,
                             seedX: real, seedY: real, pick: nat -> nat, candidate: (Point, nat, nat) -> (real, real))
    returns (points: seq<Point>)
    requires GoodCells(radius, cellSize) && InWindow(seedX, seedY, width, height)
    ensures points != [] && points[0] == Point(seedX, seedY, true)
    ensures forall n | 0 <= n < |points| :: points[n].active && InWindow(points[n].x, points[n].y, width, height)
    ensures Apart(points, radius)
    ensures forall a, b | 0 <= a < b < |points| ::
      (Cell(points[a].x, cellSize), Cell(points[a].y, cellSize)) != (Cell(points[b].x, cellSize), Cell(points[b].y, cellSize))
    ensures |points| <= Ceil(width as real / cellSize) * Ceil(height as real / cellSize)
  {
    var grid := NewGrid(width, height, cellSize);
    ghost var gw, gh := grid.Length0, grid.Length1;
    var active;
    points, active := Seed(grid, seedX, seedY, width, height, cellSize);
    SeedFree(gw, gh, Cell(seedX, cellSize), Cell(seedY, cellSize));
    ghost var free := AllCells(gw, gh) - {(Cell(seedX, cellSize), Cell(seedY, cellSize))};
    var round: nat := 0;
    while |active| > 0
      invariant Sampled(grid, points, free, width, height, radius, cellSize)
      invariant points != [] && points[0] == Point(seedX, seedY, true)
      decreases |free|, |active|
    {
      var idx := pick(round) % |active|;
      var p := active[idx];
      var found;
      ghost var attempt;
      found, points, active, attempt, free := Attempts(grid, points, active, free, p, round, k, radius, cellSize, width, height, candidate);
      if !found {
        active := Erase(active, idx);
      }
      round := round + 1;
    }
    DistinctCells(points, radius, cellSize);
  }

  /** Once the seed's cell is taken, every other cell of the grid is free. */
  lemma SeedFree(gw: nat, gh: nat, x: int, y: int)
    requires 0 <= x < gw && 0 <= y < gh
    ensures |AllCells(gw, gh) - {(x, y)}| == gw * gh - 1
    ensures forall a, b | 0 <= a < gw && 0 <= b < gh && (a, b) != (x, y) :: (a, b) in AllCells(gw, gh) - {(x, y)}
  {
    InAllCells(gw, gh, x, y);
    AllCellsCount(gw, gh);
    forall a, b | 0 <= a < gw && 0 <= b < gh
      ensures (a, b) in AllCells(gw, gh)
    {
      InAllCells(gw, gh, a, b);
    }
  }

  /** Points pairwise at least `radius` apart lie in distinct cells. */
  lemma DistinctCells(points: seq<Point>, radius: real, c: real)
    requires GoodCells(radius, c) && Apart(points, radius)
    ensures forall a, b | 0 <= a < b < |points| ::
      (Cell(points[a].x, c), Cell(points[a].y, c)) != (Cell(points[b].x, c), Cell(points[b].y, c))
  {
    forall a, b | 0 <= a < b < |points|
      ensures (Cell(points[a].x, c), Cell(points[a].y, c)) != (Cell(points[b].x, c), Cell(points[b].y, c))
    {
      if (Cell(points[a].x, c), Cell(points[a].y, c)) == (Cell(points[b].x, c), Cell(points[b].y, c)) {
        SameCellTooClose(points[a].x, points[a].y, points[b].x, points[b].y, c, radius);
      }
    }
  }

  /** Removing element idx from the frontier: active.erase(active.begin() + idx) at Possion.h:91. */
  function Erase(active: seq<Point>, idx: nat): (r: seq<Point>)
    requires idx < |active|
    ensures |r| == |active| - 1
    ensures forall k | 0 <= k < idx :: r[k] == active[k]
    ensures forall k | idx <= k < |r| :: r[k] == active[k + 1]
    ensures multiset(r) == multiset(active) - multiset{active[idx]}
  {
    assert active == active[..idx] + [active[idx]] + active[idx + 1..];
    active[..idx] + active[idx + 1..]
  }
}
