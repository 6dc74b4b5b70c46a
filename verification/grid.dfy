/** The `Grid` object of grid.js: the velocity and density buffers
    (current, previous and source), buffer swaps, clears, source injection at
    the cell containing a point, and the border-aware lookup `get`. */
module Grids {
  import opened Fields
  import Boundary

  /** The two velocity components vel[X_DIM], vel[Y_DIM]. */
  datatype Vec = Vec(x: Field, y: Field)

  ghost predicate VecShaped(v: Vec, d: Dims) {
    Shaped(v.x, d) && Shaped(v.y, d)
  }

  /** A grid: interior resolution N, domain size (width, height), the cell
      lengths len_cells, and the six buffers. */
  datatype Grid = Grid(
    n: Dims, width: real, height: real, lenX: real, lenY: real,
    vel: Vec, prevVel: Vec, srcVel: Vec,
    dens: Field, prevDens: Field, srcDens: Field)

  /** Every buffer has the grid's shape. */
  ghost predicate Valid(g: Grid) {
    && VecShaped(g.vel, g.n) && VecShaped(g.prevVel, g.n) && VecShaped(g.srcVel, g.n)
    && Shaped(g.dens, g.n) && Shaped(g.prevDens, g.n) && Shaped(g.srcDens, g.n)
  }

  /** The zero velocity pair. */
  function ZeroVec(d: Dims): (v: Vec)
    ensures VecShaped(v, d) && IsZero(v.x, d) && IsZero(v.y, d)
  {
    Vec(Zero(d), Zero(d))
  }

  /** `new Grid(N, size, ...)`: each cell length is the size divided by
      N + 2, and every buffer is allocated zero-filled with the grid's shape. */
  function NewGrid(n: Dims, width: real, height: real): (g: Grid)
    ensures Valid(g) && g.n == n && g.width == width && g.height == height
    ensures g.lenX * (n.nx + 2) as real == width && g.lenY * (n.ny + 2) as real == height
    ensures IsZero(g.vel.x, n) && IsZero(g.vel.y, n) && IsZero(g.prevVel.x, n) && IsZero(g.prevVel.y, n)
    ensures IsZero(g.srcVel.x, n) && IsZero(g.srcVel.y, n)
    ensures IsZero(g.dens, n) && IsZero(g.prevDens, n) && IsZero(g.srcDens, n)
  {
    Grid(n, width, height, width / (n.nx + 2) as real, height / (n.ny + 2) as real,
         ZeroVec(n), ZeroVec(n), ZeroVec(n), Zero(n), Zero(n), Zero(n))
  }

  /** `clearArrays(v, d)`: every entry of both velocity components and of the
      density buffer becomes 0, border included. */
  function ClearArrays(v: Vec, f: Field, d: Dims): (r: (Vec, Field))
    ensures VecShaped(r.0, d) && Shaped(r.1, d)
    ensures IsZero(r.0.x, d) && IsZero(r.0.y, d) && IsZero(r.1, d)
  {
    (ZeroVec(d), Zero(d))
  }

  /** `clearSources()`: zeroes src_vel and src_dens, nothing else changes. */
  function ClearSources(g: Grid): (r: Grid)
    requires Valid(g)
    ensures Valid(r) && r.(srcVel := g.srcVel, srcDens := g.srcDens) == g
    ensures IsZero(r.srcVel.x, g.n) && IsZero(r.srcVel.y, g.n) && IsZero(r.srcDens, g.n)
  {
    var (v, f) := ClearArrays(g.srcVel, g.srcDens, g.n);
    g.(srcVel := v, srcDens := f)
  }

  /** `clearCurrent()`: zeroes vel and dens, nothing else changes. */
  function ClearCurrent(g: Grid): (r: Grid)
    requires Valid(g)
    ensures Valid(r) && r.(vel := g.vel, dens := g.dens) == g
    ensures IsZero(r.vel.x, g.n) && IsZero(r.vel.y, g.n) && IsZero(r.dens, g.n)
  {
    var (v, f) := ClearArrays(g.vel, g.dens, g.n);
    g.(vel := v, dens := f)
  }

  /** `clearPrev()`: zeroes prev_vel and prev_dens, nothing else changes. */
  function ClearPrev(g: Grid): (r: Grid)
    requires Valid(g)
    ensures Valid(r) && r.(prevVel := g.prevVel, prevDens := g.prevDens) == g
    ensures IsZero(r.prevVel.x, g.n) && IsZero(r.prevVel.y, g.n) && IsZero(r.prevDens, g.n)
  {
    var (v, f) := ClearArrays(g.prevVel, g.prevDens, g.n);
    g.(prevVel := v, prevDens := f)
  }

  /** `swapV()`: the current and previous velocity buffers trade places;
      their contents and every other buffer are untouched. */
  function SwapV(g: Grid): (r: Grid)
    ensures r.vel == g.prevVel && r.prevVel == g.vel
    ensures r.(vel := g.vel, prevVel := g.prevVel) == g
  {
    g.(vel := g.prevVel, prevVel := g.vel)
  }

  /** `swapD()`: the current and previous density buffers trade places. */
  function SwapD(g: Grid): (r: Grid)
    ensures r.dens == g.prevDens && r.prevDens == g.dens
    ensures r.(dens := g.dens, prevDens := g.prevDens) == g
  {
    g.(dens := g.prevDens, prevDens := g.dens)
  }

  /** Two consecutive swaps restore the original grid. */
  lemma SwapVInvolution(g: Grid)
    ensures SwapV(SwapV(g)) == g
  {
  }

  lemma SwapDInvolution(g: Grid)
    ensures SwapD(SwapD(g)) == g
  {
  }

  /** `getContainerCell(x, y)`: the cell index floor(x / len_cells[X]),
      floor(y / len_cells[Y]); the cell's extent contains the point. */
  function ContainerCell(g: Grid, x: real, y: real): (c: (int, int))
    requires g.lenX > 0.0 && g.lenY > 0.0
    ensures c.0 as real * g.lenX <= x < (c.0 + 1) as real * g.lenX
    ensures c.1 as real * g.lenY <= y < (c.1 + 1) as real * g.lenY
  {
    var i := (x / g.lenX).Floor;
    var j := (y / g.lenY).Floor;
    FloorBrackets(x, g.lenX);
    FloorBrackets(y, g.lenY);
    (i, j)
  }

  /** k = floor(x / l) brackets x between k * l and (k + 1) * l. */
  lemma FloorBrackets(x: real, l: real)
    requires l > 0.0
    ensures (x / l).Floor as real * l <= x < ((x / l).Floor + 1) as real * l
  {
    var q := x / l;
    var k := q.Floor;
    assert k as real <= q < (k + 1) as real;
    assert q * l == x;
    MultiplyPreservesOrder(k as real, q, l);
    MultiplyPreservesOrder(q, (k + 1) as real, l);
    assert x < (k + 1) as real * l;
  }

  lemma MultiplyPreservesOrder(u: real, v: real, l: real)
    requires l > 0.0
    ensures u <= v ==> u * l <= v * l
    ensures u < v ==> u * l < v * l
  {
  }

  /** The container cell lies inside the grid (border ring included) exactly
      when the point lies inside the domain [0, width) x [0, height). */
  lemma ContainerCellInGrid(g: Grid, x: real, y: real)
    requires g.lenX > 0.0 && g.lenY > 0.0
    requires g.lenX * (g.n.nx + 2) as real == g.width && g.lenY * (g.n.ny + 2) as real == g.height
    ensures InRange(g.n, ContainerCell(g, x, y).0, ContainerCell(g, x, y).1)
        <==> 0.0 <= x < g.width && 0.0 <= y < g.height
  {
    var c := ContainerCell(g, x, y);
    CellIndexInRange(x, g.lenX, c.0, g.n.nx + 2);
    CellIndexInRange(y, g.lenY, c.1, g.n.ny + 2);
  }

  /** For the index k of the length-l cell containing x: 0 <= k < m exactly
      when 0 <= x < m * l. */
  lemma CellIndexInRange(x: real, l: real, k: int, m: int)
    requires l > 0.0 && m >= 1
    requires k as real * l <= x < (k + 1) as real * l
    ensures 0 <= k < m <==> 0.0 <= x < l * m as real
  {
    if 0 <= k < m {
      MultiplyPreservesOrder(0.0, k as real, l);
      MultiplyPreservesOrder((k + 1) as real, m as real, l);
    }
    if 0.0 <= x < l * m as real {
      if k < 0 {
        MultiplyPreservesOrder((k + 1) as real, 0.0, l);
      }
      if k >= m {
        MultiplyPreservesOrder(m as real, k as real, l);
      }
    }
  }

  /** The outcome of writing at a point's cell: the source throws when the
      cell lies outside the allocated arrays. */
  datatype Outcome = Done(grid: Grid) | OutsideGrid

  /** `addDensSource(x, y, d)`: src_dens at the containing cell is SET to d
      (not increased); no other cell or buffer changes. */
  function AddDensSource(g: Grid, x: real, y: real, amount: real): (r: Outcome)
    requires Valid(g) && g.lenX > 0.0 && g.lenY > 0.0
    ensures r.Done? <==> InRange(g.n, ContainerCell(g, x, y).0, ContainerCell(g, x, y).1)
    ensures r.Done? ==> Valid(r.grid) && r.grid.(srcDens := g.srcDens) == g
    ensures r.Done? ==> forall p, q :: InRange(g.n, p, q) ==>
      r.grid.srcDens[p][q] == if (p, q) == ContainerCell(g, x, y) then amount else g.srcDens[p][q]
  {
    var (i, j) := ContainerCell(g, x, y);
    if InRange(g.n, i, j) then Done(g.(srcDens := Set(g.srcDens, i, j, amount))) else OutsideGrid
  }

  /** `addVelSource(x, y, vX, vY)`: the two source velocity components at the
      containing cell are SET to vX and vY; nothing else changes. */
  function AddVelSource(g: Grid, x: real, y: real, vX: real, vY: real): (r: Outcome)
    requires Valid(g) && g.lenX > 0.0 && g.lenY > 0.0
    ensures r.Done? <==> InRange(g.n, ContainerCell(g, x, y).0, ContainerCell(g, x, y).1)
    ensures r.Done? ==> Valid(r.grid) && r.grid.(srcVel := g.srcVel) == g
    ensures r.Done? ==> forall p, q :: InRange(g.n, p, q) ==>
      && r.grid.srcVel.x[p][q] == (if (p, q) == ContainerCell(g, x, y) then vX else g.srcVel.x[p][q])
      && r.grid.srcVel.y[p][q] == (if (p, q) == ContainerCell(g, x, y) then vY else g.srcVel.y[p][q])
  {
    var (i, j) := ContainerCell(g, x, y);
    if InRange(g.n, i, j) then
      Done(g.(srcVel := Vec(Set(g.srcVel.x, i, j, vX), Set(g.srcVel.y, i, j, vY))))
    else OutsideGrid
  }

  /** `registerClick(x, y, val)`: the current density at the containing cell
      is set to val; nothing else changes. */
  function RegisterClick(g: Grid, x: real, y: real, val: real): (r: Outcome)
    requires Valid(g) && g.lenX > 0.0 && g.lenY > 0.0
    ensures r.Done? <==> InRange(g.n, ContainerCell(g, x, y).0, ContainerCell(g, x, y).1)
    ensures r.Done? ==> Valid(r.grid) && r.grid.(dens := g.dens) == g
    ensures r.Done? ==> forall p, q :: InRange(g.n, p, q) ==>
      r.grid.dens[p][q] == if (p, q) == ContainerCell(g, x, y) then val else g.dens[p][q]
  {
    var (i, j) := ContainerCell(g, x, y);
    if InRange(g.n, i, j) then Done(g.(dens := Set(g.dens, i, j, val))) else OutsideGrid
  }

  /** The index k moved into the interior range 1..n. */
  function Clamp(k: int, n: Count): (r: int)
    ensures 1 <= r <= n
    ensures 1 <= k <= n ==> r == k
  {
    if k < 1 then 1 else if k > n then n else k
  }

  /** `get(x, y, z, A)`: corners average two edge lookups, edges read their
      nearest interior cell, interior cells read themselves. Whatever the
      case, the result is A at the index clamped into the interior, so each
      corner equals its diagonal interior neighbour. */
  function Get(a: Field, d: Dims, x: int, y: int): (r: real)
    requires Shaped(a, d) && InRange(d, x, y)
    ensures r == a[Clamp(x, d.nx)][Clamp(y, d.ny)]
    decreases if (x == 0 || x == d.nx + 1) && (y == 0 || y == d.ny + 1) then 1 else 0
  {
    var xMax, yMax := d.nx + 1, d.ny + 1;
    if x == 0 && y == 0 then 0.5 * (Get(a, d, 1, 0) + Get(a, d, 0, 1))
    else if x == 0 && y == yMax then 0.5 * (Get(a, d, 1, yMax) + Get(a, d, 0, yMax - 1))
    else if x == xMax && y == 0 then 0.5 * (Get(a, d, xMax, 1) + Get(a, d, xMax - 1, 0))
    else if x == xMax && y == yMax then 0.5 * (Get(a, d, xMax - 1, yMax) + Get(a, d, xMax, yMax - 1))
    else if x == 0 then a[1][y]
    else if x == xMax then a[xMax - 1][y]
    else if y == 0 then a[x][1]
    else if y == yMax then a[x][yMax - 1]
    else a[x][y]
  }

  /** `getD(x, y, z, prev)`: `get` on the density buffer, or on the previous
      density buffer when prev is set. */
  function GetD(g: Grid, x: int, y: int, prev: bool): (r: real)
    requires Valid(g) && InRange(g.n, x, y)
    ensures r == (if prev then g.prevDens else g.dens)[Clamp(x, g.n.nx)][Clamp(y, g.n.ny)]
  {
    Get(if prev then g.prevDens else g.dens, g.n, x, y)
  }

  /** On a field that satisfies the mirror boundary condition, `get` reads
      the stored value: the lookup reproduces what `setBoundary(A,
      BOUNDARY_MIRROR)` writes. */
  lemma GetReadsMirroredField(a: Field, d: Dims, x: int, y: int)
    requires Shaped(a, d) && InRange(d, x, y) && Boundary.Holds(a, d, Boundary.Mirror)
    ensures Get(a, d, x, y) == a[x][y]
  {
    var ex, ey := d.nx + 1, d.ny + 1;
    if 1 <= y <= d.ny {
      assert a[0][y] == a[1][y] && a[ex][y] == a[d.nx][y];
    }
    if 1 <= x <= d.nx {
      assert a[x][0] == a[x][1] && a[x][ey] == a[x][d.ny];
    }
    assert a[1][0] == a[1][1] && a[0][1] == a[1][1];
    assert a[1][ey] == a[1][d.ny] && a[0][d.ny] == a[1][d.ny];
    assert a[d.nx][0] == a[d.nx][1] && a[ex][1] == a[d.nx][1];
    assert a[d.nx][ey] == a[d.nx][d.ny] && a[ex][d.ny] == a[d.nx][d.ny];
  }

  /** `clearSources` undoes any source injection: whatever `addDensSource`
      or `addVelSource` wrote, clearing the sources afterwards gives the same
      grid as clearing them before. */
  lemma ClearSourcesForgetsInjection(g: Grid, x: real, y: real, amount: real, vX: real, vY: real)
    requires Valid(g) && g.lenX > 0.0 && g.lenY > 0.0
    ensures AddDensSource(g, x, y, amount).Done? ==>
      ClearSources(AddDensSource(g, x, y, amount).grid) == ClearSources(g)
    ensures AddVelSource(g, x, y, vX, vY).Done? ==>
      ClearSources(AddVelSource(g, x, y, vX, vY).grid) == ClearSources(g)
  {
  }
}
