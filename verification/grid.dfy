/** `gridMaker`: a lattice of points covering the parallelogram spanned by a
    corner (`center`) and its two neighbouring corners. Coordinates are exact
    reals; the two geodesic side lengths come from geopy and are inputs. */
module Grid {
  import opened Wrappers

  /** A (latitude, longitude) pair, in degrees. */
  datatype LatLon = LatLon(lat: real, lon: real)

  /** The three given corners and the two step lengths, in metres. */
  datatype GridSpec = GridSpec(
    center: LatLon,
    topLeft: LatLon,
    bottomRight: LatLon,
    xStep: real,
    yStep: real)

  /** The ways `gridMaker` fails. Both are a `ZeroDivisionError` in the source:
      `ZeroStep` when a step is zero (the division by the step in kilometres),
      `ZeroStepCount` when a step count is zero (the division `i/npx` or `j/npy`). */
  datatype GridError = ZeroStep | ZeroStepCount

  /** Python's `int()` on a number: truncation toward zero. */
  function Trunc(x: real): (n: int)
    ensures 0.0 <= x ==> 0 <= n && n as real <= x < n as real + 1.0
    ensures x < 0.0 ==> n <= 0 && n as real - 1.0 < x <= n as real
  {
    if x >= 0.0 then x.Floor else -((-x).Floor)
  }

  /** `npx` / `npy`: how many whole steps fit along a side of length `norm` km. */
  function StepCount(norm: real, stepMeters: real): int
    requires stepMeters != 0.0
  {
    Trunc(norm / (stepMeters / 1000.0))
  }

  /** The fourth corner, opposite `center`. */
  function FourthVertex(g: GridSpec): LatLon {
    LatLon(g.bottomRight.lat + g.topLeft.lat - g.center.lat,
           g.bottomRight.lon + g.topLeft.lon - g.center.lon)
  }

  /** Point `(i, j)` of the lattice: `center + (i/npx)·vector_x + (j/npy)·vector_y`,
      one coordinate at a time. */
  function LatticePoint(g: GridSpec, npx: nat, npy: nat, i: nat, j: nat): LatLon
    requires npx > 0 && npy > 0
  {
    var vxLat := g.bottomRight.lat - g.center.lat;
    var vxLon := g.bottomRight.lon - g.center.lon;
    var vyLat := g.topLeft.lat - g.center.lat;
    var vyLon := g.topLeft.lon - g.center.lon;
    LatLon(g.center.lat + (i as real / npx as real) * vxLat + (j as real / npy as real) * vyLat,
           g.center.lon + (i as real / npx as real) * vxLon + (j as real / npy as real) * vyLon)
  }

  /** The index pair `(i, j)` of one lattice point. */
  datatype Cell = Cell(i: nat, j: nat)

  /** The pairs the inner loop visits for row `i` in its first `m` iterations. */
  function RowCells(i: nat, m: nat): seq<Cell>
    decreases m
  {
    if m == 0 then [] else RowCells(i, m - 1) + [Cell(i, m - 1)]
  }

  /** The pairs both loops visit in the first `n` rows of `w` points:
      `i` outer, `j` inner. */
  function Cells(w: nat, n: nat): seq<Cell>
    decreases n
  {
    if n == 0 then [] else Cells(w, n - 1) + RowCells(n - 1, w)
  }

  lemma {:induction false} RowCellsLayout(i: nat, m: nat)
    ensures |RowCells(i, m)| == m
    ensures forall j :: 0 <= j < m ==> RowCells(i, m)[j] == Cell(i, j)
    decreases m
  {
    if m > 0 {
      RowCellsLayout(i, m - 1);
    }
  }

  /** Index of the first point of row `i` when rows hold `w` points. */
  function RowStart(i: nat, w: nat): nat
    decreases i
  {
    if i == 0 then 0 else RowStart(i - 1, w) + w
  }

  lemma {:induction false} RowStartIsProduct(i: nat, w: nat)
    ensures RowStart(i, w) == i * w
    decreases i
  {
    if i > 0 {
      RowStartIsProduct(i - 1, w);
      assert (i - 1) * w + w == i * w;
    }
  }

  lemma {:induction false} RowStartMonotone(i: nat, n: nat, w: nat)
    requires i < n
    ensures RowStart(i, w) + w <= RowStart(n, w)
    decreases n
  {
    if i < n - 1 {
      RowStartMonotone(i, n - 1, w);
    }
  }

  lemma {:induction false} CellsLength(w: nat, n: nat)
    ensures |Cells(w, n)| == RowStart(n, w)
    decreases n
  {
    if n > 0 {
      CellsLength(w, n - 1);
      RowCellsLayout(n - 1, w);
    }
  }

  /** Pair `(i, j)` sits at `RowStart(i, w) + j` once row `i` is visited. */
  lemma {:induction false} CellsAt(w: nat, n: nat, i: nat, j: nat)
    requires i < n && j < w
    ensures RowStart(i, w) + j < |Cells(w, n)|
    ensures Cells(w, n)[RowStart(i, w) + j] == Cell(i, j)
    decreases n
  {
    var prev := Cells(w, n - 1);
    var last := RowCells(n - 1, w);
    assert Cells(w, n) == prev + last;
    CellsLength(w, n - 1);
    RowCellsLayout(n - 1, w);
    if i < n - 1 {
      CellsAt(w, n - 1, i, j);
      RowStartMonotone(i, n - 1, w);
    } else {
      assert RowStart(i, w) + j == |prev| + j;
    }
  }

  /** Every pair visited in the first `n` rows is in range. */
  lemma {:induction false} CellsInRange(w: nat, n: nat, c: Cell)
    requires c in Cells(w, n)
    ensures c.i < n && c.j < w
    decreases n
  {
    var prev := Cells(w, n - 1);
    var last := RowCells(n - 1, w);
    if c in prev {
      CellsInRange(w, n - 1, c);
    } else {
      RowCellsLayout(n - 1, w);
      var j :| 0 <= j < |last| && last[j] == c;
    }
  }

  /** Row-major layout with products: pair `(i, j)` at index `i * w + j`. */
  lemma CellsAtIndex(w: nat, n: nat, i: nat, j: nat)
    requires i < n && j < w
    ensures |Cells(w, n)| == n * w
    ensures i * w + j < |Cells(w, n)|
    ensures Cells(w, n)[i * w + j] == Cell(i, j)
  {
    CellsLength(w, n);
    RowStartIsProduct(n, w);
    CellsAt(w, n, i, j);
    RowStartIsProduct(i, w);
  }

  /** The list both loops of `gridMaker` build for step counts `npx, npy > 0`:
      one point per visited pair, in visiting order. */
  function Lattice(g: GridSpec, npx: nat, npy: nat): (grid: seq<LatLon>)
    requires npx > 0 && npy > 0
  {
    var cells := Cells(npy + 1, npx + 1);
    seq(|cells|, k requires 0 <= k < |cells| => LatticePoint(g, npx, npy, cells[k].i, cells[k].j))
  }

  lemma LatticeLength(g: GridSpec, npx: nat, npy: nat)
    requires npx > 0 && npy > 0
    ensures |Lattice(g, npx, npy)| == (npx + 1) * (npy + 1)
  {
    CellsLength(npy + 1, npx + 1);
    RowStartIsProduct(npx + 1, npy + 1);
  }

  lemma LatticeAt(g: GridSpec, npx: nat, npy: nat, i: nat, j: nat)
    requires npx > 0 && npy > 0
    requires i <= npx && j <= npy
    ensures i * (npy + 1) + j < |Lattice(g, npx, npy)|
    ensures Lattice(g, npx, npy)[i * (npy + 1) + j] == LatticePoint(g, npx, npy, i, j)
  {
    var cells := Cells(npy + 1, npx + 1);
    var k := i * (npy + 1) + j;
    CellsAtIndex(npy + 1, npx + 1, i, j);
    assert cells[k].i == i && cells[k].j == j;
    assert Lattice(g, npx, npy)[k] == LatticePoint(g, npx, npy, cells[k].i, cells[k].j);
  }

  /** `grid` is the lattice for step counts `npx, npy`: `(npx + 1) * (npy + 1)`
      points, point `(i, j)` at index `i * (npy + 1) + j` (row-major, `i`
      outer), and no point that is not a lattice point. */
  ghost predicate IsLattice(grid: seq<LatLon>, g: GridSpec, npx: nat, npy: nat)
    requires npx > 0 && npy > 0
  {
    && |grid| == (npx + 1) * (npy + 1)
    && (forall i, j :: 0 <= i <= npx && 0 <= j <= npy ==>
          && i * (npy + 1) + j < |grid|
          && grid[i * (npy + 1) + j] == LatticePoint(g, npx, npy, i, j))
    && (forall p :: p in grid ==>
          exists i, j :: 0 <= i <= npx && 0 <= j <= npy && p == LatticePoint(g, npx, npy, i, j))
  }

  /** What the two loops build is the lattice. */
  lemma LatticeIsLattice(g: GridSpec, npx: nat, npy: nat)
    requires npx > 0 && npy > 0
    ensures IsLattice(Lattice(g, npx, npy), g, npx, npy)
  {
    var cells := Cells(npy + 1, npx + 1);
    var grid := Lattice(g, npx, npy);
    LatticeLength(g, npx, npy);
    forall i, j | 0 <= i <= npx && 0 <= j <= npy
      ensures i * (npy + 1) + j < |grid|
      ensures grid[i * (npy + 1) + j] == LatticePoint(g, npx, npy, i, j)
    {
      LatticeAt(g, npx, npy, i, j);
    }
    forall p | p in grid
      ensures exists i, j :: 0 <= i <= npx && 0 <= j <= npy && p == LatticePoint(g, npx, npy, i, j)
    {
      var k :| 0 <= k < |grid| && grid[k] == p;
      CellsInRange(npy + 1, npx + 1, cells[k]);
      assert p == LatticePoint(g, npx, npy, cells[k].i, cells[k].j);
    }
  }

  /** The corners of the parallelogram are lattice points: `(0, 0)` is
      `center`, `(npx, 0)` is `bottom_right`, `(0, npy)` is `top_left`, and
      `(npx, npy)` is the fourth vertex. */
  lemma LatticeCorners(g: GridSpec, npx: nat, npy: nat)
    requires npx > 0 && npy > 0
    ensures LatticePoint(g, npx, npy, 0, 0) == g.center
    ensures LatticePoint(g, npx, npy, npx, 0) == g.bottomRight
    ensures LatticePoint(g, npx, npy, 0, npy) == g.topLeft
    ensures LatticePoint(g, npx, npy, npx, npy) == FourthVertex(g)
  {
  }

  /** `gridMaker(center, top_left, bottom_right, x_step, y_step)`, given the
      geodesic lengths `vxNorm` = |center→bottom_right| and
      `vyNorm` = |center→top_left| in kilometres. */
  function GridMaker(g: GridSpec, vxNorm: real, vyNorm: real): (r: Result<seq<LatLon>, GridError>)
    ensures r == Failure(ZeroStep) <==> g.xStep == 0.0 || g.yStep == 0.0
    ensures g.xStep != 0.0 && g.yStep != 0.0 ==>
      var npx := StepCount(vxNorm, g.xStep);
      var npy := StepCount(vyNorm, g.yStep);
      && (r == Failure(ZeroStepCount) <==> 0 <= npx && 0 <= npy && (npx == 0 || npy == 0))
      && (npx < 0 || npy < 0 ==> r == Success([]))
      && (0 < npx && 0 < npy ==>
            && r.Success?
            && IsLattice(r.value, g, npx, npy))
  {
    if g.xStep == 0.0 || g.yStep == 0.0 then Failure(ZeroStep)
    else
      var npx := StepCount(vxNorm, g.xStep);
      var npy := StepCount(vyNorm, g.yStep);
      if npx < 0 || npy < 0 then Success([])
      else if npx == 0 || npy == 0 then Failure(ZeroStepCount)
      else
        LatticeIsLattice(g, npx, npy);
        Success(Lattice(g, npx, npy))
  }

  /** The four corners of the parallelogram are grid points: the first point
      is `center`, point `(npx, 0)` is `bottom_right`, point `(0, npy)` is
      `top_left`, and the last point is the fourth vertex. */
  lemma GridVertices(g: GridSpec, vxNorm: real, vyNorm: real)
    requires g.xStep != 0.0 && g.yStep != 0.0
    requires StepCount(vxNorm, g.xStep) > 0 && StepCount(vyNorm, g.yStep) > 0
    ensures var r := GridMaker(g, vxNorm, vyNorm);
      var npx := StepCount(vxNorm, g.xStep);
      var npy := StepCount(vyNorm, g.yStep);
      && r.Success?
      && |r.value| == (npx + 1) * (npy + 1)
      && r.value[0] == g.center
      && r.value[npx * (npy + 1)] == g.bottomRight
      && r.value[npy] == g.topLeft
      && r.value[|r.value| - 1] == FourthVertex(g)
  {
    var npx := StepCount(vxNorm, g.xStep);
    var npy := StepCount(vyNorm, g.yStep);
    var grid := Lattice(g, npx, npy);
    assert GridMaker(g, vxNorm, vyNorm) == Success(grid);
    LatticeCorners(g, npx, npy);
    LatticeLength(g, npx, npy);
    var last := npx * (npy + 1) + npy;
    assert |grid| - 1 == last by {
      assert (npx + 1) * (npy + 1) == npx * (npy + 1) + npy + 1;
    }
    assert grid[0] == g.center by {
      LatticeAt(g, npx, npy, 0, 0);
    }
    assert grid[npx * (npy + 1)] == g.bottomRight by {
      LatticeAt(g, npx, npy, npx, 0);
    }
    assert grid[npy] == g.topLeft by {
      LatticeAt(g, npx, npy, 0, npy);
    }
    assert grid[last] == FourthVertex(g) by {
      LatticeAt(g, npx, npy, npx, npy);
    }
  }

  /** With positive steps (and geodesic lengths, which are never negative), the
      grid is built exactly when each side is at least one step long; a side
      shorter than its step, such as a corner coinciding with `center`, fails. */
  lemma PositiveStepsOutcome(g: GridSpec, vxNorm: real, vyNorm: real)
    requires g.xStep > 0.0 && g.yStep > 0.0
    requires vxNorm >= 0.0 && vyNorm >= 0.0
    ensures GridMaker(g, vxNorm, vyNorm).Success? <==>
      vxNorm * 1000.0 >= g.xStep && vyNorm * 1000.0 >= g.yStep
    ensures GridMaker(g, vxNorm, vyNorm).Failure? ==>
      GridMaker(g, vxNorm, vyNorm).error == ZeroStepCount
  {
    RatioAtLeastOne(vxNorm, g.xStep);
    RatioAtLeastOne(vyNorm, g.yStep);
  }

  lemma RatioAtLeastOne(norm: real, stepMeters: real)
    requires stepMeters > 0.0 && norm >= 0.0
    ensures 0 <= StepCount(norm, stepMeters)
    ensures StepCount(norm, stepMeters) > 0 <==> norm * 1000.0 >= stepMeters
  {
    var km := stepMeters / 1000.0;
    var ratio := norm / km;
    assert StepCount(norm, stepMeters) == Trunc(ratio);
    assert ratio * km == norm;
    if norm >= km {
      assert ratio >= 1.0;
    }
    if ratio >= 1.0 {
      assert ratio * km >= km;
    }
    assert norm >= km <==> norm * 1000.0 >= stepMeters;
  }
}
