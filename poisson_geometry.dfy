/**
 * Real-number facts behind the spatial grid of the Poisson-disc sampler
 * (Possion.h): the cell a coordinate falls into, the grid's dimensions,
 * and why a 5x5 block of cells is enough for the minimum-distance test.
 */
module PoissonGeometry {

  /** std::ceil on a real. */
  function Ceil(x: real): (r: int)
    ensures x <= r as real < x + 1.0
  {
    -((-x).Floor)
  }

  /** The grid coordinate of a non-negative coordinate v:
      static_cast<int>(v / cellSize), which truncates, and so floors for v >= 0. */
  function Cell(v: real, cellSize: real): (r: int)
    requires cellSize > 0.0
    ensures r as real <= v / cellSize < r as real + 1.0
    ensures v >= 0.0 ==> r >= 0
  {
    (v / cellSize).Floor
  }

  /** Squared Euclidean distance, as computed at Possion.h:68-70. */
  function Dist2(px: real, py: real, qx: real, qy: real): (d: real)
    ensures d >= 0.0
  {
    (px - qx) * (px - qx) + (py - qy) * (py - qy)
  }

  /** The cells of the first w columns of a grid h cells high. */
  function AllCells(w: nat, h: nat): set<(int, int)>
  {
    if w == 0 then {} else AllCells(w - 1, h) + Column(w - 1, h)
  }

  /** The h cells of column x. */
  function Column(x: int, h: nat): set<(int, int)>
  {
    if h == 0 then {} else Column(x, h - 1) + {(x, h - 1)}
  }

  /* The solver is weak at non-linear real arithmetic, so every step that
     multiplies or divides by the cell side is a lemma of its own. */

  lemma DivDiff(a: real, b: real, c: real)
    requires c > 0.0
    ensures a / c - b / c == (a - b) / c
  {
  }

  lemma DivNonNeg(v: real, c: real)
    requires c > 0.0 && v >= 0.0
    ensures v / c >= 0.0
  {
  }

  lemma BelowQuotient(v: real, c: real, f: real)
    requires c > 0.0 && f < v / c
    ensures f * c < v
  {
  }

  lemma AboveQuotient(v: real, c: real, f: real)
    requires c > 0.0 && v / c < f
    ensures v < f * c
  {
  }

  lemma QuotientBelow(v: real, c: real)
    requires c > 0.0 && v > 0.0
    ensures (-v) / c < 0.0
  {
  }

  /** A coordinate inside [0, w) has a cell index inside [0, ceil(w / c)):
      the cell computed at Possion.h:37-38 and 56-57 always exists in the grid of Possion.h:26-28. */
  lemma CellInGrid(v: real, c: real, w: nat)
    requires c > 0.0 && 0.0 <= v < w as real
    ensures 0 <= Cell(v, c) < Ceil(w as real / c)
  {
    DivNonNeg(v, c);
    DivDiff(v, w as real, c);
    QuotientBelow(w as real - v, c);
    assert v - w as real == -(w as real - v);
  }

  /** x*x < r*r with r > 0 bounds x strictly by r on both sides. */
  lemma SquareBound(x: real, r: real)
    requires r > 0.0 && x * x < r * r
    ensures -r < x < r
  {
  }

  lemma SquareAtLeast(x: real, c: real)
    requires c > 0.0 && c * c <= x * x
    ensures x <= -c || c <= x
  {
  }

  /** A coordinate strictly within one cell side of another has a smaller square. */
  lemma SquareLess(x: real, c: real)
    requires c > 0.0 && -c < x < c
    ensures x * x < c * c
  {
    if x * x >= c * c {
      SquareAtLeast(x, c);
    }
  }

  /** Each coordinate difference of two points closer than r is below r in square. */
  lemma SquaresBelow(px: real, py: real, qx: real, qy: real, r: real)
    requires Dist2(px, py, qx, qy) < r * r
    ensures (px - qx) * (px - qx) < r * r && (py - qy) * (py - qy) < r * r
  {
    SquareNonNeg(px - qx);
    SquareNonNeg(py - qy);
  }

  lemma SquareNonNeg(x: real)
    ensures x * x >= 0.0
  {
  }

  /** Two coordinates closer than r <= 2c lie in cells at most two apart: this is
      why the offsets -2..2 of the scan at Possion.h:60-61 find every near point. */
  lemma NearCells(a: real, b: real, c: real, r: real)
    requires c > 0.0 && r > 0.0 && r <= 2.0 * c
    requires (a - b) * (a - b) < r * r
    ensures -2 <= Cell(a, c) - Cell(b, c) <= 2
  {
    SquareBound(a - b, r);
    if Cell(a, c) - Cell(b, c) > 2 {
      CellsApart(a, b, c);
    } else if Cell(b, c) - Cell(a, c) > 2 {
      CellsApart(b, a, c);
    }
  }

  /** A point closer than r to (qx, qy) lies in the 5x5 block of cells around
      the cell of (qx, qy). */
  lemma NearInBlock(px: real, py: real, qx: real, qy: real, r: real, c: real)
    requires r > 0.0 && c > 0.0 && r <= 2.0 * c
    ensures Dist2(px, py, qx, qy) < r * r ==>
      Cell(qx, c) - 2 <= Cell(px, c) <= Cell(qx, c) + 2 && Cell(qy, c) - 2 <= Cell(py, c) <= Cell(qy, c) + 2
  {
    if Dist2(px, py, qx, qy) < r * r {
      SquaresBelow(px, py, qx, qy, r);
      NearCells(px, qx, c, r);
      NearCells(py, qy, c, r);
    }
  }

  /** A coordinate three or more cells past another is more than two cell sides away. */
  lemma CellsApart(a: real, b: real, c: real)
    requires c > 0.0 && Cell(a, c) >= Cell(b, c) + 3
    ensures a - b > 2.0 * c
  {
    DivDiff(a, b, c);
    BelowQuotient(a - b, c, 2.0);
  }

  /** Two coordinates in the same cell are less than one cell side apart. */
  lemma SameCellNear(a: real, b: real, c: real)
    requires c > 0.0 && Cell(a, c) == Cell(b, c)
    ensures -c < a - b < c
  {
    DivDiff(a, b, c);
    BelowQuotient(a - b, c, -1.0);
    AboveQuotient(a - b, c, 1.0);
  }

  /** Two points sharing a cell of side c with 2c^2 <= r^2 are closer than r:
      a cell can hold at most one accepted point. */
  lemma SameCellTooClose(px: real, py: real, qx: real, qy: real, c: real, r: real)
    requires c > 0.0 && 2.0 * c * c <= r * r
    requires Cell(px, c) == Cell(qx, c) && Cell(py, c) == Cell(qy, c)
    ensures Dist2(px, py, qx, qy) < r * r
  {
    SameCellNear(px, qx, c);
    SameCellNear(py, qy, c);
    SquareLess(px - qx, c);
    SquareLess(py - qy, c);
  }

  /** AllCells(w, h) holds exactly the cells (x, y) with 0 <= x < w and 0 <= y < h. */
  lemma {:induction false} InAllCells(w: nat, h: nat, x: int, y: int)
    ensures (x, y) in AllCells(w, h) <==> 0 <= x < w && 0 <= y < h
  {
    if w > 0 {
      InAllCells(w - 1, h, x, y);
      InColumn(w - 1, h, x, y);
    }
  }

  /** The grid has exactly w*h cells. */
  lemma AllCellsCount(w: nat, h: nat)
    ensures |AllCells(w, h)| == w * h
  {
    AllCellsSize(w, h);
    CountIsProduct(w, h);
  }

  /** h cells for each of w columns, added up column by column. */
  function CellCount(w: nat, h: nat): nat
  {
    if w == 0 then 0 else CellCount(w - 1, h) + h
  }

  lemma {:induction false} AllCellsSize(w: nat, h: nat)
    ensures |AllCells(w, h)| == CellCount(w, h)
  {
    if w > 0 {
      ColumnApart(w - 1, h);
      DisjointUnionSize(AllCells(w - 1, h), Column(w - 1, h));
      ColumnCount(w - 1, h);
      AllCellsSize(w - 1, h);
    }
  }

  lemma {:induction false} CountIsProduct(w: nat, h: nat)
    ensures CellCount(w, h) == w * h
  {
    if w > 0 {
      CountIsProduct(w - 1, h);
      assert (w - 1) * h + h == w * h;
    }
  }

  lemma DisjointUnionSize(A: set<(int, int)>, C: set<(int, int)>)
    requires A !! C
    ensures |A + C| == |A| + |C|
  {
    assert A * C == {};
  }

  /** Column w lies outside the first w columns. */
  lemma ColumnApart(w: nat, h: nat)
    ensures AllCells(w, h) !! Column(w, h)
  {
    forall p | p in Column(w, h)
      ensures p !in AllCells(w, h)
    {
      InColumn(w, h, p.0, p.1);
      InAllCells(w, h, p.0, p.1);
    }
  }

  /** Column(x, h) holds exactly the cells (x, y) with 0 <= y < h. */
  lemma {:induction false} InColumn(x: int, h: nat, a: int, y: int)
    ensures (a, y) in Column(x, h) <==> a == x && 0 <= y < h
  {
    if h > 0 {
      InColumn(x, h - 1, a, y);
    }
  }

  lemma {:induction false} ColumnCount(x: int, h: nat)
    ensures |Column(x, h)| == h
  {
    if h > 0 {
      ColumnCount(x, h - 1);
      InColumn(x, h - 1, x, h - 1);
    }
  }
}
