/** The per-step operations of simulator.js: source accumulation, implicit
    diffusion, semi-Lagrangian advection and projection on single fields, and
    the velocity and density steps that sequence them with buffer swaps. */
module Simulator {
  import opened Fields
  import opened Grids
  import Boundary
  import Relaxation

  /** The scalars the simulator reads from its UI object: the time step dT,
      the viscosity and diffusion constants, the solver iteration count, and
      the value of Math.sqrt(width * height) that scales diffusion. */
  datatype Config = Config(dt: real, visc: real, diff: real, iters: nat, scale: real)

  /** `a = timeStep * k * Math.sqrt(width * height)` in `diffuse`. */
  function Coefficient(cfg: Config, k: real): real {
    cfg.dt * k * cfg.scale
  }

  /*** addSource ***/

  /** `addSource(dest, source)`: every cell, border included, accumulates
      dt times the matching source cell. */
  function AddSource(dest: Field, source: Field, d: Dims, dt: real): (r: Field)
    requires Shaped(dest, d) && Shaped(source, d)
    ensures Shaped(r, d)
    ensures forall i, j :: InRange(d, i, j) ==> r[i][j] == dest[i][j] + dt * source[i][j]
  {
    seq(d.nx + 2, i requires 0 <= i < d.nx + 2 =>
      seq(d.ny + 2, j requires 0 <= j < d.ny + 2 => dest[i][j] + dt * source[i][j]))
  }

  /** Accumulating an all-zero source leaves the destination as it was. */
  lemma AddZeroSource(dest: Field, source: Field, d: Dims, dt: real)
    requires Shaped(dest, d) && Shaped(source, d) && IsZero(source, d)
    ensures AddSource(dest, source, d, dt) == dest
  {
    Extensionality(AddSource(dest, source, d, dt), dest, d);
  }

  /** Accumulating two sources one after the other (as `vStep` and `dStep`
      add the previous and the injected buffers) is accumulating their sum. */
  lemma AddSourceTwice(dest: Field, s1: Field, s2: Field, d: Dims, dt: real)
    requires Shaped(dest, d) && Shaped(s1, d) && Shaped(s2, d)
    ensures AddSource(AddSource(dest, s1, d, dt), s2, d, dt) == AddSource(dest, AddSource(s1, s2, d, 1.0), d, dt)
  {
    var lhs := AddSource(AddSource(dest, s1, d, dt), s2, d, dt);
    var rhs := AddSource(dest, AddSource(s1, s2, d, 1.0), d, dt);
    forall i, j | InRange(d, i, j)
      ensures lhs[i][j] == rhs[i][j]
    {
      assert rhs[i][j] == dest[i][j] + dt * (s1[i][j] + 1.0 * s2[i][j]);
    }
    Extensionality(lhs, rhs, d);
  }

  /*** diffuse ***/

  /** `diffuse(cur, prev, k, bMode)` with a = Coefficient(cfg, k): `iters`
      in-place Gauss-Seidel sweeps of the stencil with divisor 1 + 4a and
      right-hand side prev, each followed by `setBoundary(cur, bMode)`. With
      no iterations cur is returned as it was; otherwise the boundary
      condition holds; with a = 0 the interior becomes prev's. */
  function Diffuse(cur: Field, prev: Field, d: Dims, a: real, iters: nat, mode: Boundary.Mode): (r: Field)
    requires Shaped(cur, d) && Shaped(prev, d) && 1.0 + 4.0 * a != 0.0
    ensures Shaped(r, d)
    ensures iters == 0 ==> r == cur
    ensures iters >= 1 ==> Boundary.Holds(r, d, mode)
    ensures a == 0.0 && iters >= 1 ==> SameInterior(r, prev, d)
  {
    Relaxation.ImposedBoundaryHolds(cur, prev, d, a, 1.0 + 4.0 * a, iters, mode);
    Relaxation.ZeroCoefficientCopies(cur, prev, d, a, iters, Relaxation.Impose(mode));
    Relaxation.Iterate(cur, prev, d, a, 1.0 + 4.0 * a, iters, Relaxation.Impose(mode))
  }

  /*** advect ***/

  /** The 0.000001 added before flooring the backtraced cell coordinate. */
  const Nudge: real := 0.000001

  /** A backtrace along one axis: the clamped end coordinate, the floor index
      i0 (i1 = i0 + 1), and the interpolation weight s1 (s0 = 1 - s1). */
  datatype Trace = Trace(pos: real, i0: int, s1: real)

  /** One axis of the backtrace of `advect`: start at i * l, step back by
      dt * v, clamp into [0, n * l], floor the cell coordinate (after the
      nudge). The weight is the clamped displacement in cells,
      (end - start) / l, as the source computes it. The clamp keeps
      0 <= i0 <= n, so both i0 and i0 + 1 index the (n + 2)-cell axis. */
  function Backtrace(i: int, l: real, n: Count, dt: real, v: real): (t: Trace)
    requires l > 0.0
    ensures 0.0 <= t.pos <= n as real * l
    ensures 0 <= t.i0 <= n
  {
    var start := i as real * l;
    var e0 := start - dt * v;
    var e1 := if e0 < 0.0 then 0.0 else e0;
    var e := if e1 > n as real * l then n as real * l else e1;
    NudgedFloorBounds(e, l, n);
    Trace(e, (e / l + Nudge).Floor, (e - start) / l)
  }

  /** A clamped coordinate e in [0, n * l] floors (after the nudge) to a cell
      index in 0..n. */
  lemma NudgedFloorBounds(e: real, l: real, n: int)
    requires l > 0.0 && n >= 1 && 0.0 <= e <= n as real * l
    ensures 0 <= (e / l + Nudge).Floor <= n
  {
    var q := e / l;
    assert q * l == e;
    if q > n as real {
      Grids.MultiplyPreservesOrder(n as real, q, l);
    }
    assert 0.0 <= q <= n as real;
    var k := (q + Nudge).Floor;
    assert k as real <= q + Nudge < (k + 1) as real;
  }

  /** With zero velocity an interior index backtraces onto itself with zero
      weight. */
  lemma BacktraceAtRest(i: int, l: real, n: Count, dt: real)
    requires l > 0.0 && 1 <= i <= n
    ensures Backtrace(i, l, n, dt, 0.0).i0 == i && Backtrace(i, l, n, dt, 0.0).s1 == 0.0
  {
    var start := i as real * l;
    DivideProduct(i as real, l);
    assert 0.0 <= start <= n as real * l by {
      Grids.MultiplyPreservesOrder(i as real, n as real, l);
      Grids.MultiplyPreservesOrder(0.0, i as real, l);
    }
    var t := Backtrace(i, l, n, dt, 0.0);
    assert start - dt * 0.0 == start;
    assert !(start < 0.0) && !(start > n as real * l);
    assert t.pos == start;
    assert start / l == i as real;
    assert t.i0 == (start / l + Nudge).Floor;
    NudgedFloorOfWhole(i);
  }

  /** The weight the code uses is not the fractional offset of the
      backtraced point. A step back of less than one cell (and more than the
      nudge) from interior index i lands in cell i - 1, and s1 comes out
      negative: it is that cell's fractional offset minus one. The combined
      value then extrapolates from cells i - 1 and i rather than
      interpolating between them. */
  lemma ShortBacktraceWeight(i: int, l: real, n: Count, dt: real, v: real)
    requires l > 0.0 && 1 <= i <= n && Nudge < dt * v / l < 1.0
    ensures Backtrace(i, l, n, dt, v).i0 == i - 1
    ensures Backtrace(i, l, n, dt, v).s1 == -(dt * v / l) < 0.0
    ensures Backtrace(i, l, n, dt, v).s1 == Backtrace(i, l, n, dt, v).pos / l - (i - 1) as real - 1.0
  {
    var start := i as real * l;
    var w := dt * v / l;
    var e := start - dt * v;
    DivideProduct(i as real, l);
    MultiplyQuotient(dt * v, l);
    DivideDifference(start, dt * v, l);
    assert e / l == i as real - w;
    assert 0.0 < e by {
      assert e == (i as real - w) * l;
      Grids.MultiplyPreservesOrder(0.0, i as real - w, l);
    }
    assert e <= n as real * l by {
      Grids.MultiplyPreservesOrder(0.0, w, l);
      Grids.MultiplyPreservesOrder(i as real, n as real, l);
    }
    var t := Backtrace(i, l, n, dt, v);
    assert t.pos == e;
    assert (i - 1) as real <= e / l + Nudge < i as real;
    assert t.i0 == i - 1;
    DivideDifference(e, start, l);
    assert t.s1 == e / l - start / l;
  }

  /** The nudge never carries a whole number past itself. */
  lemma NudgedFloorOfWhole(k: int)
    ensures (k as real + Nudge).Floor == k
  {
    var f := (k as real + Nudge).Floor;
    assert f as real <= k as real + Nudge < (f + 1) as real;
  }

  /** Multiplying a quotient by its (non-zero) divisor recovers the dividend. */
  lemma MultiplyQuotient(x: real, l: real)
    requires l != 0.0
    ensures (x / l) * l == x
  {
  }

  /** Division by a non-zero divisor distributes over a difference. */
  lemma DivideDifference(x: real, y: real, l: real)
    requires l != 0.0
    ensures (x - y) / l == x / l - y / l
  {
  }

  /** Dividing a product by one of its (non-zero) factors recovers the other. */
  lemma DivideProduct(u: real, l: real)
    requires l != 0.0
    ensures (u * l) / l == u
  {
  }

  /** The combination of the four prev cells at i0, i0 + 1 and j0, j0 + 1
      with weights s0 = 1 - s1 and t0 = 1 - t1, as the code writes it (see
      `ShortBacktraceWeight` for what s1 is). The weights sum to 1,
      so four equal cells give back their common value; with both weights
      zero the lower-left cell is read. */
  function Interpolate(prev: Field, d: Dims, tx: Trace, ty: Trace): (r: real)
    requires Shaped(prev, d) && 0 <= tx.i0 <= d.nx && 0 <= ty.i0 <= d.ny
    ensures tx.s1 == 0.0 && ty.s1 == 0.0 ==> r == prev[tx.i0][ty.i0]
    ensures prev[tx.i0][ty.i0] == prev[tx.i0][ty.i0 + 1] == prev[tx.i0 + 1][ty.i0] == prev[tx.i0 + 1][ty.i0 + 1]
      ==> r == prev[tx.i0][ty.i0]
  {
    var s1, t1 := tx.s1, ty.s1;
    var s0, t0 := 1.0 - s1, 1.0 - t1;
    var i0, j0 := tx.i0, ty.i0;
    WeightsSumToOne(prev[i0][j0], s1, t1);
    s0 * (t0 * prev[i0][j0] + t1 * prev[i0][j0 + 1]) + s1 * (t0 * prev[i0 + 1][j0] + t1 * prev[i0 + 1][j0 + 1])
  }

  /** Weights of the form 1 - s, s reproduce a constant. */
  lemma WeightsSumToOne(v: real, s1: real, t1: real)
    ensures (1.0 - s1) * ((1.0 - t1) * v + t1 * v) + s1 * ((1.0 - t1) * v + t1 * v) == v
  {
    assert (1.0 - t1) * v + t1 * v == v;
  }

  /** The value `advect` stores at interior cell (i, j): the four prev cells
      around the point reached by stepping back along the transport velocity
      read at (i, j), combined with the code's weights s1 = (end - start) / l
      and t1 likewise. Where that velocity is zero the cell keeps prev's
      value. */
  function AdvectCell(prev: Field, vx: Field, vy: Field, d: Dims, dt: real, lX: real, lY: real, i: int, j: int): (r: real)
    requires Shaped(prev, d) && Shaped(vx, d) && Shaped(vy, d) && Interior(d, i, j)
    requires lX > 0.0 && lY > 0.0
    ensures vx[i][j] == 0.0 && vy[i][j] == 0.0 ==> r == prev[i][j]
  {
    BacktraceAtRest(i, lX, d.nx, dt);
    BacktraceAtRest(j, lY, d.ny, dt);
    Interpolate(prev, d, Backtrace(i, lX, d.nx, dt, vx[i][j]), Backtrace(j, lY, d.ny, dt, vy[i][j]))
  }

  /** A cell's sample reads the transport velocity at that cell only: two
      velocity fields that agree at (i, j) give the same sample there. */
  lemma AdvectCellReadsOwnVelocity(prev: Field, vx: Field, vy: Field, vx': Field, vy': Field, d: Dims,
                                   dt: real, lX: real, lY: real, i: int, j: int)
    requires Shaped(prev, d) && Shaped(vx, d) && Shaped(vy, d) && Shaped(vx', d) && Shaped(vy', d)
    requires Interior(d, i, j) && lX > 0.0 && lY > 0.0
    requires vx[i][j] == vx'[i][j] && vy[i][j] == vy'[i][j]
    ensures AdvectCell(prev, vx, vy, d, dt, lX, lY, i, j) == AdvectCell(prev, vx', vy', d, dt, lX, lY, i, j)
  {
  }

  /** Every interior cell of cur replaced by its `AdvectCell` value; the
      border keeps what cur held. */
  function Samples(cur: Field, prev: Field, vx: Field, vy: Field, d: Dims, dt: real, lX: real, lY: real): (r: Field)
    requires Shaped(cur, d) && Shaped(prev, d) && Shaped(vx, d) && Shaped(vy, d)
    requires lX > 0.0 && lY > 0.0
    ensures Shaped(r, d)
    ensures forall i, j :: OnBorder(d, i, j) ==> r[i][j] == cur[i][j]
    ensures forall i, j :: Interior(d, i, j) ==> r[i][j] == AdvectCell(prev, vx, vy, d, dt, lX, lY, i, j)
  {
    seq(d.nx + 2, i requires 0 <= i < d.nx + 2 =>
      seq(d.ny + 2, j requires 0 <= j < d.ny + 2 =>
        if Interior(d, i, j) then AdvectCell(prev, vx, vy, d, dt, lX, lY, i, j) else cur[i][j]))
  }

  /** `advect(cur, prev, vel, bMode)` read as a map: every interior cell of
      cur receives its `AdvectCell` value from prev, computed from the velocity
      vel holds on entry, then `setBoundary(cur, bMode)` runs once.
      `AdvectInPlace` shows the source's loop computes exactly this, even
      when cur is one of vel's components. */
  function Advect(cur: Field, prev: Field, vx: Field, vy: Field, d: Dims, dt: real, lX: real, lY: real,
                  mode: Boundary.Mode): (r: Field)
    requires Shaped(cur, d) && Shaped(prev, d) && Shaped(vx, d) && Shaped(vy, d)
    requires lX > 0.0 && lY > 0.0
    ensures Shaped(r, d)
    ensures Boundary.Holds(r, d, mode)
    ensures forall i, j :: Interior(d, i, j) ==> r[i][j] == AdvectCell(prev, vx, vy, d, dt, lX, lY, i, j)
  {
    Boundary.SetBoundary(Samples(cur, prev, vx, vy, d, dt, lX, lY), d, mode)
  }

  /*** advect, in loop order ***/

  /** Where `advect` reads its transport velocity from. `dStep` passes a
      velocity apart from cur; in `vStep` cur is vel[X_DIM] in the first
      pass and vel[Y_DIM] in the second, so one transport component is the
      very buffer the loop writes. */
  datatype Transport =
    | Apart(vx: Field, vy: Field)
    | WritesX(vy: Field)
    | WritesY(vx: Field)

  ghost predicate TransportShaped(tr: Transport, d: Dims) {
    (!tr.WritesX? ==> Shaped(tr.vx, d)) && (!tr.WritesY? ==> Shaped(tr.vy, d))
  }

  /** The x component of the transport velocity while cur holds s. */
  function VelX(tr: Transport, s: Field): Field {
    if tr.WritesX? then s else tr.vx
  }

  /** The y component of the transport velocity while cur holds s. */
  function VelY(tr: Transport, s: Field): Field {
    if tr.WritesY? then s else tr.vy
  }

  /** The inner loop of `advect` on row i: cells (i, 1), ..., (i, j) of s
      are overwritten in turn, each reading the transport velocity from the
      live buffers. A cell reads the written buffer only at its own index,
      before writing it, so every cell gets the sample computed from the
      velocity as the row found it. */
  function AdvectRow(s: Field, prev: Field, tr: Transport, d: Dims, dt: real, lX: real, lY: real,
                     i: int, j: nat): (r: Field)
    requires Shaped(s, d) && Shaped(prev, d) && TransportShaped(tr, d)
    requires 1 <= i <= d.nx && j <= d.ny && lX > 0.0 && lY > 0.0
    ensures Shaped(r, d)
    ensures forall p, q :: InRange(d, p, q) && !(p == i && 1 <= q <= j) ==> r[p][q] == s[p][q]
    ensures forall q :: 1 <= q <= j ==>
      r[i][q] == AdvectCell(prev, VelX(tr, s), VelY(tr, s), d, dt, lX, lY, i, q)
  {
    if j == 0 then s
    else
      var t := AdvectRow(s, prev, tr, d, dt, lX, lY, i, j - 1);
      AdvectCellReadsOwnVelocity(prev, VelX(tr, t), VelY(tr, t), VelX(tr, s), VelY(tr, s), d, dt, lX, lY, i, j);
      Set(t, i, j, AdvectCell(prev, VelX(tr, t), VelY(tr, t), d, dt, lX, lY, i, j))
  }

  /** The outer loop of `advect`: rows 1..i of s overwritten in order. Each
      swept cell holds the sample computed from the velocity on entry; every
      other cell, the border included, is s's. */
  function AdvectRows(s: Field, prev: Field, tr: Transport, d: Dims, dt: real, lX: real, lY: real,
                      i: nat): (r: Field)
    requires Shaped(s, d) && Shaped(prev, d) && TransportShaped(tr, d)
    requires i <= d.nx && lX > 0.0 && lY > 0.0
    ensures Shaped(r, d)
    ensures forall p, q :: InRange(d, p, q) && !(1 <= p <= i && 1 <= q <= d.ny) ==> r[p][q] == s[p][q]
    ensures forall p, q :: 1 <= p <= i && 1 <= q <= d.ny ==>
      r[p][q] == AdvectCell(prev, VelX(tr, s), VelY(tr, s), d, dt, lX, lY, p, q)
  {
    if i == 0 then s
    else
      var t := AdvectRows(s, prev, tr, d, dt, lX, lY, i - 1);
      RowUntouched(s, t, prev, tr, d, dt, lX, lY, i);
      AdvectRow(t, prev, tr, d, dt, lX, lY, i, d.ny)
  }

  /** Row i has not been written yet, so its samples read the same velocity
      from t as from the starting state s. */
  lemma RowUntouched(s: Field, t: Field, prev: Field, tr: Transport, d: Dims, dt: real, lX: real, lY: real, i: int)
    requires Shaped(s, d) && Shaped(t, d) && Shaped(prev, d) && TransportShaped(tr, d)
    requires 1 <= i <= d.nx && lX > 0.0 && lY > 0.0
    requires forall q :: 1 <= q <= d.ny ==> t[i][q] == s[i][q]
    ensures forall q :: 1 <= q <= d.ny ==>
      AdvectCell(prev, VelX(tr, t), VelY(tr, t), d, dt, lX, lY, i, q)
      == AdvectCell(prev, VelX(tr, s), VelY(tr, s), d, dt, lX, lY, i, q)
  {
    forall q | 1 <= q <= d.ny {
      AdvectCellReadsOwnVelocity(prev, VelX(tr, t), VelY(tr, t), VelX(tr, s), VelY(tr, s), d, dt, lX, lY, i, q);
    }
  }

  /** `advect(cur, prev, vel, bMode)` as the source runs it: the loop nest
      in order, reading the transport velocity from the live buffers (cur
      among them when the transport says so), then `setBoundary`. The result
      is `Advect` with the velocity vel held on entry: overwriting cur while
      reading it as velocity changes nothing. */
  function AdvectInPlace(cur: Field, prev: Field, tr: Transport, d: Dims, dt: real, lX: real, lY: real,
                         mode: Boundary.Mode): (r: Field)
    requires Shaped(cur, d) && Shaped(prev, d) && TransportShaped(tr, d)
    requires lX > 0.0 && lY > 0.0
    ensures r == Advect(cur, prev, VelX(tr, cur), VelY(tr, cur), d, dt, lX, lY, mode)
  {
    var s := AdvectRows(cur, prev, tr, d, dt, lX, lY, d.nx);
    Extensionality(s, Samples(cur, prev, VelX(tr, cur), VelY(tr, cur), d, dt, lX, lY), d);
    Boundary.SetBoundary(s, d, mode)
  }

  /** Apart from the velocity read from it, the previous contents of cur do
      not matter: every cell is overwritten. */
  lemma AdvectOverwritesCur(cur: Field, cur': Field, prev: Field, vx: Field, vy: Field, d: Dims,
                            dt: real, lX: real, lY: real, mode: Boundary.Mode)
    requires Shaped(cur, d) && Shaped(cur', d) && Shaped(prev, d) && Shaped(vx, d) && Shaped(vy, d)
    requires lX > 0.0 && lY > 0.0
    ensures Advect(cur, prev, vx, vy, d, dt, lX, lY, mode) == Advect(cur', prev, vx, vy, d, dt, lX, lY, mode)
  {
    var r := Advect(cur, prev, vx, vy, d, dt, lX, lY, mode);
    var r' := Advect(cur', prev, vx, vy, d, dt, lX, lY, mode);
    AdvectIsBoundaryOfSamples(cur, prev, vx, vy, d, dt, lX, lY, mode);
    AdvectIsBoundaryOfSamples(cur', prev, vx, vy, d, dt, lX, lY, mode);
    Boundary.DependsOnlyOnInterior(r, r', d, mode);
    Boundary.Idempotent(r, d, mode);
  }

  /** The result of `advect` is a fixed point of its own boundary pass (the
      helper that lets two results be compared through their interiors). */
  lemma AdvectIsBoundaryOfSamples(cur: Field, prev: Field, vx: Field, vy: Field, d: Dims,
                                  dt: real, lX: real, lY: real, mode: Boundary.Mode)
    requires Shaped(cur, d) && Shaped(prev, d) && Shaped(vx, d) && Shaped(vy, d)
    requires lX > 0.0 && lY > 0.0
    ensures Boundary.SetBoundary(Advect(cur, prev, vx, vy, d, dt, lX, lY, mode), d, mode)
         == Advect(cur, prev, vx, vy, d, dt, lX, lY, mode)
  {
    Boundary.FixedPointIffHolds(Advect(cur, prev, vx, vy, d, dt, lX, lY, mode), d, mode);
  }

  /** With a velocity field that is zero on the interior, `advect` copies
      prev's interior and then imposes the boundary: the result is exactly
      `setBoundary(prev, bMode)`. */
  lemma AdvectAtRest(cur: Field, prev: Field, vx: Field, vy: Field, d: Dims,
                     dt: real, lX: real, lY: real, mode: Boundary.Mode)
    requires Shaped(cur, d) && Shaped(prev, d) && Shaped(vx, d) && Shaped(vy, d)
    requires lX > 0.0 && lY > 0.0
    requires forall i, j :: Interior(d, i, j) ==> vx[i][j] == 0.0 && vy[i][j] == 0.0
    ensures Advect(cur, prev, vx, vy, d, dt, lX, lY, mode) == Boundary.SetBoundary(prev, d, mode)
  {
    var r := Advect(cur, prev, vx, vy, d, dt, lX, lY, mode);
    forall i, j | Interior(d, i, j)
      ensures r[i][j] == prev[i][j]
    {
      assert vx[i][j] == 0.0 && vy[i][j] == 0.0;
    }
    AdvectIsBoundaryOfSamples(cur, prev, vx, vy, d, dt, lX, lY, mode);
    Boundary.DependsOnlyOnInterior(r, prev, d, mode);
  }

  /** Advecting the zero field gives the zero field, whatever the velocity. */
  lemma AdvectOfZero(cur: Field, prev: Field, vx: Field, vy: Field, d: Dims,
                     dt: real, lX: real, lY: real, mode: Boundary.Mode)
    requires Shaped(cur, d) && Shaped(prev, d) && Shaped(vx, d) && Shaped(vy, d)
    requires lX > 0.0 && lY > 0.0 && IsZero(prev, d)
    ensures IsZero(Advect(cur, prev, vx, vy, d, dt, lX, lY, mode), d)
  {
    var r := Advect(cur, prev, vx, vy, d, dt, lX, lY, mode);
    forall i, j | Interior(d, i, j)
      ensures r[i][j] == 0.0
    {
      var tx, ty := Backtrace(i, lX, d.nx, dt, vx[i][j]), Backtrace(j, lY, d.ny, dt, vy[i][j]);
      assert r[i][j] == Interpolate(prev, d, tx, ty);
      assert prev[tx.i0][ty.i0] == 0.0 && prev[tx.i0][ty.i0 + 1] == 0.0;
      assert prev[tx.i0 + 1][ty.i0] == 0.0 && prev[tx.i0 + 1][ty.i0 + 1] == 0.0;
    }
    AdvectIsBoundaryOfSamples(cur, prev, vx, vy, d, dt, lX, lY, mode);
    Boundary.ZeroInteriorGivesZero(r, d, mode);
  }

  /*** project ***/

  /** `Lx = 1 / width` and `Ly = 1 / height` of `project`, never zero. */
  function Reciprocal(w: real): (r: real)
    requires w != 0.0
    ensures r != 0.0 && r * w == 1.0
  {
    1.0 / w
  }

  /** The output of `project(vel, buf)`: the corrected velocity, and buf,
      which now holds the pressure (buf[X]) and the divergence (buf[Y]). */
  datatype Projected = Projected(vel: Vec, scratch: Vec)

  /** The discrete divergence at an interior cell, Lx = 1 / width, Ly = 1 / height. */
  function Divergence(v: Vec, d: Dims, lx: real, ly: real, i: int, j: int): real
    requires VecShaped(v, d) && Interior(d, i, j)
  {
    -0.5 * (lx * (v.x[i + 1][j] - v.x[i - 1][j]) + ly * (v.y[i][j + 1] - v.y[i][j - 1]))
  }

  /** The first loop of `project`: div gets the divergence and p gets 0 on
      the interior; their borders keep what buf held. */
  function ProjectStart(v: Vec, buf: Vec, d: Dims, lx: real, ly: real): (r: Vec)
    requires VecShaped(v, d) && VecShaped(buf, d)
    ensures VecShaped(r, d)
    ensures forall i, j :: Interior(d, i, j) ==> r.x[i][j] == 0.0 && r.y[i][j] == Divergence(v, d, lx, ly, i, j)
    ensures forall i, j :: OnBorder(d, i, j) ==> r.x[i][j] == buf.x[i][j] && r.y[i][j] == buf.y[i][j]
  {
    Vec(
      seq(d.nx + 2, i requires 0 <= i < d.nx + 2 =>
        seq(d.ny + 2, j requires 0 <= j < d.ny + 2 => if Interior(d, i, j) then 0.0 else buf.x[i][j])),
      seq(d.nx + 2, i requires 0 <= i < d.nx + 2 =>
        seq(d.ny + 2, j requires 0 <= j < d.ny + 2 =>
          if Interior(d, i, j) then Divergence(v, d, lx, ly, i, j) else buf.y[i][j])))
  }

  /** The pressure after the mirror passes and `iters` Poisson sweeps
      p = (div + sum of the four neighbours of p) / 4, each followed by a
      mirror pass: the relaxation with a = 1 and divisor 4. */
  function Pressure(start: Vec, d: Dims, iters: nat): (p: Field)
    requires VecShaped(start, d)
    ensures Shaped(p, d) && Boundary.Holds(p, d, Boundary.Mirror)
  {
    var div := Boundary.SetBoundary(start.y, d, Boundary.Mirror);
    var p0 := Boundary.SetBoundary(start.x, d, Boundary.Mirror);
    Relaxation.Iterate(p0, div, d, 1.0, 4.0, iters, Relaxation.Impose(Boundary.Mirror))
  }

  /** The gradient subtraction of `project` on the interior; borders kept. */
  function SubtractGradient(v: Vec, p: Field, d: Dims, lx: real, ly: real): (r: Vec)
    requires VecShaped(v, d) && Shaped(p, d) && lx != 0.0 && ly != 0.0
    ensures VecShaped(r, d)
    ensures forall i, j :: Interior(d, i, j) ==>
      && r.x[i][j] == v.x[i][j] - 0.5 * (p[i + 1][j] - p[i - 1][j]) / lx
      && r.y[i][j] == v.y[i][j] - 0.5 * (p[i][j + 1] - p[i][j - 1]) / ly
    ensures forall i, j :: OnBorder(d, i, j) ==> r.x[i][j] == v.x[i][j] && r.y[i][j] == v.y[i][j]
  {
    Vec(
      seq(d.nx + 2, i requires 0 <= i < d.nx + 2 =>
        seq(d.ny + 2, j requires 0 <= j < d.ny + 2 =>
          if Interior(d, i, j) then v.x[i][j] - 0.5 * (p[i + 1][j] - p[i - 1][j]) / lx else v.x[i][j])),
      seq(d.nx + 2, i requires 0 <= i < d.nx + 2 =>
        seq(d.ny + 2, j requires 0 <= j < d.ny + 2 =>
          if Interior(d, i, j) then v.y[i][j] - 0.5 * (p[i][j + 1] - p[i][j - 1]) / ly else v.y[i][j])))
  }

  /** `project(vel, buf)`: divergence, pressure solve, gradient subtraction,
      then OPPOSE_X on vel[X] and OPPOSE_Y on vel[Y]. The pressure left in
      buf[X] and the divergence in buf[Y] satisfy the mirror condition. */
  function Project(v: Vec, buf: Vec, d: Dims, width: real, height: real, iters: nat): (r: Projected)
    requires VecShaped(v, d) && VecShaped(buf, d) && width != 0.0 && height != 0.0
    ensures VecShaped(r.vel, d) && VecShaped(r.scratch, d)
    ensures Boundary.Holds(r.vel.x, d, Boundary.OpposeX) && Boundary.Holds(r.vel.y, d, Boundary.OpposeY)
    ensures Boundary.Holds(r.scratch.x, d, Boundary.Mirror) && Boundary.Holds(r.scratch.y, d, Boundary.Mirror)
  {
    var lx, ly := Reciprocal(width), Reciprocal(height);
    var start := ProjectStart(v, buf, d, lx, ly);
    var p := Pressure(start, d, iters);
    var w := SubtractGradient(v, p, d, lx, ly);
    Projected(ImposeVelocity(w, d), Vec(p, Boundary.SetBoundary(start.y, d, Boundary.Mirror)))
  }

  /** The two closing `setBoundary` calls of `project`: OPPOSE_X on the x
      component, OPPOSE_Y on the y component. */
  function ImposeVelocity(w: Vec, d: Dims): (r: Vec)
    requires VecShaped(w, d)
    ensures VecShaped(r, d)
    ensures Boundary.Holds(r.x, d, Boundary.OpposeX) && Boundary.Holds(r.y, d, Boundary.OpposeY)
    ensures SameInterior(r.x, w.x, d) && SameInterior(r.y, w.y, d)
  {
    Vec(Boundary.SetBoundary(w.x, d, Boundary.OpposeX), Boundary.SetBoundary(w.y, d, Boundary.OpposeY))
  }

  /** buf is scratch only: what it held before `project` does not affect
      anything `project` produces. */
  lemma ProjectIgnoresScratch(v: Vec, buf: Vec, buf': Vec, d: Dims, width: real, height: real, iters: nat)
    requires VecShaped(v, d) && VecShaped(buf, d) && VecShaped(buf', d) && width != 0.0 && height != 0.0
    ensures Project(v, buf, d, width, height, iters) == Project(v, buf', d, width, height, iters)
  {
    var lx, ly := Reciprocal(width), Reciprocal(height);
    var s, s' := ProjectStart(v, buf, d, lx, ly), ProjectStart(v, buf', d, lx, ly);
    Boundary.DependsOnlyOnInterior(s.x, s'.x, d, Boundary.Mirror);
    Boundary.DependsOnlyOnInterior(s.y, s'.y, d, Boundary.Mirror);
  }

  /** A velocity field that is zero everywhere stays zero through `project`,
      and so do the pressure and divergence it leaves in buf. */
  lemma ProjectOfZero(v: Vec, buf: Vec, d: Dims, width: real, height: real, iters: nat)
    requires VecShaped(v, d) && VecShaped(buf, d) && width != 0.0 && height != 0.0
    requires IsZero(v.x, d) && IsZero(v.y, d)
    ensures var r := Project(v, buf, d, width, height, iters);
      IsZero(r.vel.x, d) && IsZero(r.vel.y, d) && IsZero(r.scratch.x, d) && IsZero(r.scratch.y, d)
  {
    var lx, ly := Reciprocal(width), Reciprocal(height);
    var start := ProjectStart(v, buf, d, lx, ly);
    DivergenceOfZero(v, buf, d, lx, ly);
    PressureOfZero(start, d, iters);
    var p := Pressure(start, d, iters);
    GradientOfZero(v, p, d, lx, ly);
  }

  /** A zero velocity has zero divergence. */
  lemma DivergenceOfZero(v: Vec, buf: Vec, d: Dims, lx: real, ly: real)
    requires VecShaped(v, d) && VecShaped(buf, d) && IsZero(v.x, d) && IsZero(v.y, d)
    ensures forall i, j :: Interior(d, i, j) ==> ProjectStart(v, buf, d, lx, ly).y[i][j] == 0.0
  {
    forall i, j | Interior(d, i, j)
      ensures Divergence(v, d, lx, ly, i, j) == 0.0
    {
      assert v.x[i + 1][j] == 0.0 && v.x[i - 1][j] == 0.0 && v.y[i][j + 1] == 0.0 && v.y[i][j - 1] == 0.0;
    }
  }

  /** Zero divergence and a zero initial guess give zero pressure. */
  lemma PressureOfZero(start: Vec, d: Dims, iters: nat)
    requires VecShaped(start, d)
    requires forall i, j :: Interior(d, i, j) ==> start.x[i][j] == 0.0 && start.y[i][j] == 0.0
    ensures IsZero(Pressure(start, d, iters), d)
    ensures IsZero(Boundary.SetBoundary(start.y, d, Boundary.Mirror), d)
  {
    var div := Boundary.SetBoundary(start.y, d, Boundary.Mirror);
    var p0 := Boundary.SetBoundary(start.x, d, Boundary.Mirror);
    Boundary.ZeroInteriorGivesZero(start.y, d, Boundary.Mirror);
    Boundary.ZeroInteriorGivesZero(start.x, d, Boundary.Mirror);
    Relaxation.ZeroStaysZero(p0, div, d, 1.0, 4.0, iters, Relaxation.Impose(Boundary.Mirror));
  }

  /** Subtracting the gradient of a zero pressure from a zero velocity, and
      imposing the velocity boundary conditions, gives zero. */
  lemma GradientOfZero(v: Vec, p: Field, d: Dims, lx: real, ly: real)
    requires VecShaped(v, d) && Shaped(p, d) && lx != 0.0 && ly != 0.0
    requires IsZero(v.x, d) && IsZero(v.y, d) && IsZero(p, d)
    ensures IsZero(ImposeVelocity(SubtractGradient(v, p, d, lx, ly), d).x, d)
    ensures IsZero(ImposeVelocity(SubtractGradient(v, p, d, lx, ly), d).y, d)
  {
    var w := SubtractGradient(v, p, d, lx, ly);
    forall i, j | Interior(d, i, j)
      ensures w.x[i][j] == 0.0 && w.y[i][j] == 0.0
    {
      assert p[i + 1][j] == 0.0 && p[i - 1][j] == 0.0 && p[i][j + 1] == 0.0 && p[i][j - 1] == 0.0;
    }
    Boundary.ZeroInteriorGivesZero(w.x, d, Boundary.OpposeX);
    Boundary.ZeroInteriorGivesZero(w.y, d, Boundary.OpposeY);
  }

  /*** vStep, dStep, addGravity ***/

  /** What the steps need of the grid and the settings: well-shaped buffers,
      positive cell lengths (advect divides by them and clamps into the
      grid), a non-zero domain size (project divides by it), and diffusion
      divisors 1 + 4a that are not zero. */
  ghost predicate Ready(g: Grid, cfg: Config) {
    && Valid(g) && g.lenX > 0.0 && g.lenY > 0.0 && g.width != 0.0 && g.height != 0.0
    && 1.0 + 4.0 * Coefficient(cfg, cfg.visc) != 0.0
    && 1.0 + 4.0 * Coefficient(cfg, cfg.diff) != 0.0
  }

  /** The first loop of `vStep`: each velocity component accumulates its
      previous and then its injected source. */
  function VelocitySources(g: Grid, cfg: Config): (r: Grid)
    requires Valid(g)
    ensures Valid(r) && r.(vel := g.vel) == g
    ensures forall i, j :: InRange(g.n, i, j) ==>
      && r.vel.x[i][j] == g.vel.x[i][j] + cfg.dt * g.prevVel.x[i][j] + cfg.dt * g.srcVel.x[i][j]
      && r.vel.y[i][j] == g.vel.y[i][j] + cfg.dt * g.prevVel.y[i][j] + cfg.dt * g.srcVel.y[i][j]
  {
    var d, dt := g.n, cfg.dt;
    g.(vel := Vec(AddSource(AddSource(g.vel.x, g.prevVel.x, d, dt), g.srcVel.x, d, dt),
                  AddSource(AddSource(g.vel.y, g.prevVel.y, d, dt), g.srcVel.y, d, dt)))
  }

  /** The diffusion loop of `vStep`: component dim of vel diffuses against
      the same component of prev_vel with viscosity visc and boundary mode
      dim + 1. */
  function DiffuseVelocity(g: Grid, cfg: Config): (r: Grid)
    requires Ready(g, cfg)
    ensures Ready(r, cfg) && r.(vel := g.vel) == g
    ensures cfg.iters >= 1 ==>
      Boundary.Holds(r.vel.x, g.n, Boundary.OpposeX) && Boundary.Holds(r.vel.y, g.n, Boundary.OpposeY)
  {
    var d, a := g.n, Coefficient(cfg, cfg.visc);
    g.(vel := Vec(Diffuse(g.vel.x, g.prevVel.x, d, a, cfg.iters, Boundary.ForAxis(0)),
                  Diffuse(g.vel.y, g.prevVel.y, d, a, cfg.iters, Boundary.ForAxis(1))))
  }

  /** `project(grid.vel, grid.prev_vel)`: vel is corrected and prev_vel is
      left holding the pressure and the divergence. */
  function ProjectVelocity(g: Grid, cfg: Config): (r: Grid)
    requires Ready(g, cfg)
    ensures Ready(r, cfg) && r.(vel := g.vel, prevVel := g.prevVel) == g
    ensures Boundary.Holds(r.vel.x, g.n, Boundary.OpposeX) && Boundary.Holds(r.vel.y, g.n, Boundary.OpposeY)
    ensures Boundary.Holds(r.prevVel.x, g.n, Boundary.Mirror) && Boundary.Holds(r.prevVel.y, g.n, Boundary.Mirror)
  {
    var p := Project(g.vel, g.prevVel, g.n, g.width, g.height, cfg.iters);
    g.(vel := p.vel, prevVel := p.scratch)
  }

  /** The advection loop of `vStep`: component dim of vel is overwritten by
      advecting prev_vel[dim] along grid.vel, mode dim + 1. The transport
      field is grid.vel itself: each pass writes the component it reads as
      velocity (`AdvectInPlace` shows that each cell still sees the value on
      entry), and the y pass reads the x component the x pass has just
      written. */
  function AdvectVelocity(g: Grid, cfg: Config): (r: Grid)
    requires Ready(g, cfg)
    ensures Ready(r, cfg) && r.(vel := g.vel) == g
    ensures Boundary.Holds(r.vel.x, g.n, Boundary.OpposeX) && Boundary.Holds(r.vel.y, g.n, Boundary.OpposeY)
    ensures forall i, j :: Interior(g.n, i, j) ==>
      && r.vel.x[i][j] == AdvectCell(g.prevVel.x, g.vel.x, g.vel.y, g.n, cfg.dt, g.lenX, g.lenY, i, j)
      && r.vel.y[i][j] == AdvectCell(g.prevVel.y, r.vel.x, g.vel.y, g.n, cfg.dt, g.lenX, g.lenY, i, j)
  {
    var d, dt := g.n, cfg.dt;
    var x := AdvectInPlace(g.vel.x, g.prevVel.x, WritesX(g.vel.y), d, dt, g.lenX, g.lenY, Boundary.ForAxis(0));
    assert x == Advect(g.vel.x, g.prevVel.x, g.vel.x, g.vel.y, d, dt, g.lenX, g.lenY, Boundary.ForAxis(0));
    var y := AdvectInPlace(g.vel.y, g.prevVel.y, WritesY(x), d, dt, g.lenX, g.lenY, Boundary.ForAxis(1));
    assert y == Advect(g.vel.y, g.prevVel.y, x, g.vel.y, d, dt, g.lenX, g.lenY, Boundary.ForAxis(1));
    g.(vel := Vec(x, y))
  }

  /** `vStep()`: sources, swap, diffuse, project, swap, advect, project. Only
      the velocity buffers change; afterwards vel satisfies OPPOSE_X on its
      x component and OPPOSE_Y on its y component, and prev_vel holds the
      last projection's pressure and divergence, both mirrored. */
  function VStep(g: Grid, cfg: Config): (r: Grid)
    requires Ready(g, cfg)
    ensures Ready(r, cfg) && r.(vel := g.vel, prevVel := g.prevVel) == g
    ensures Boundary.Holds(r.vel.x, g.n, Boundary.OpposeX) && Boundary.Holds(r.vel.y, g.n, Boundary.OpposeY)
    ensures Boundary.Holds(r.prevVel.x, g.n, Boundary.Mirror) && Boundary.Holds(r.prevVel.y, g.n, Boundary.Mirror)
  {
    var g1 := SwapV(VelocitySources(g, cfg));
    var g2 := SwapV(ProjectVelocity(DiffuseVelocity(g1, cfg), cfg));
    ProjectVelocity(AdvectVelocity(g2, cfg), cfg)
  }

  /** The two addSource calls of `dStep`. */
  function DensitySources(g: Grid, cfg: Config): (r: Grid)
    requires Valid(g)
    ensures Valid(r) && r.(dens := g.dens) == g
    ensures forall i, j :: InRange(g.n, i, j) ==>
      r.dens[i][j] == g.dens[i][j] + cfg.dt * g.prevDens[i][j] + cfg.dt * g.srcDens[i][j]
  {
    g.(dens := AddSource(AddSource(g.dens, g.prevDens, g.n, cfg.dt), g.srcDens, g.n, cfg.dt))
  }

  /** The diffusion of `dStep`: dens diffuses against prev_dens with the
      diffusion constant, mirrored at the walls. */
  function DiffuseDensity(g: Grid, cfg: Config): (r: Grid)
    requires Ready(g, cfg)
    ensures Ready(r, cfg) && r.(dens := g.dens) == g
    ensures cfg.iters >= 1 ==> Boundary.Holds(r.dens, g.n, Boundary.Mirror)
  {
    g.(dens := Diffuse(g.dens, g.prevDens, g.n, Coefficient(cfg, cfg.diff), cfg.iters, Boundary.Mirror))
  }

  /** The advection of `dStep`: dens is overwritten by prev_dens carried
      along the current velocity, mirrored at the walls. */
  function AdvectDensity(g: Grid, cfg: Config): (r: Grid)
    requires Ready(g, cfg)
    ensures Ready(r, cfg) && r.(dens := g.dens) == g
    ensures Boundary.Holds(r.dens, g.n, Boundary.Mirror)
    ensures forall i, j :: Interior(g.n, i, j) ==>
      r.dens[i][j] == AdvectCell(g.prevDens, g.vel.x, g.vel.y, g.n, cfg.dt, g.lenX, g.lenY, i, j)
  {
    g.(dens := AdvectInPlace(g.dens, g.prevDens, Apart(g.vel.x, g.vel.y), g.n, cfg.dt, g.lenX, g.lenY, Boundary.Mirror))
  }

  /** `dStep()`: sources, swap, diffuse, swap, advect. Only the density
      buffers change; dens satisfies the mirror condition afterwards, and so
      does prev_dens (the diffused field) once the solver has run. */
  function DStep(g: Grid, cfg: Config): (r: Grid)
    requires Ready(g, cfg)
    ensures Ready(r, cfg) && r.(dens := g.dens, prevDens := g.prevDens) == g
    ensures Boundary.Holds(r.dens, g.n, Boundary.Mirror)
    ensures cfg.iters >= 1 ==> Boundary.Holds(r.prevDens, g.n, Boundary.Mirror)
  {
    var g1 := SwapD(DensitySources(g, cfg));
    AdvectDensity(SwapD(DiffuseDensity(g1, cfg)), cfg)
  }

  /** The simulation work of `step`: `vStep()` then `dStep()`. */
  function Advance(g: Grid, cfg: Config): (r: Grid)
    requires Ready(g, cfg)
    ensures Ready(r, cfg) && r.n == g.n && r.srcVel == g.srcVel && r.srcDens == g.srcDens
    ensures Boundary.Holds(r.vel.x, g.n, Boundary.OpposeX) && Boundary.Holds(r.vel.y, g.n, Boundary.OpposeY)
    ensures Boundary.Holds(r.dens, g.n, Boundary.Mirror)
  {
    DStep(VStep(g, cfg), cfg)
  }

  /** `addGravity(g)`: every cell of src_vel[Y], border included, is set to
      g (assigned, not added); nothing else changes. */
  function AddGravity(g: Grid, force: real): (r: Grid)
    requires Valid(g)
    ensures Valid(r) && r.(srcVel := g.srcVel) == g && r.srcVel.x == g.srcVel.x
    ensures forall i, j :: InRange(g.n, i, j) ==> r.srcVel.y[i][j] == force
  {
    g.(srcVel := Vec(g.srcVel.x, Filled(g.n, force)))
  }

  /** Because `addGravity` assigns, the last call decides: calling it with
      -g after g leaves the y source at -g everywhere rather than at 0. */
  lemma GravityLastCallWins(g: Grid, f1: real, f2: real)
    requires Valid(g)
    ensures AddGravity(AddGravity(g, f1), f2) == AddGravity(g, f2)
  {
  }

  /*** Scenarios ***/

  /** The six velocity buffers are all zero. */
  ghost predicate VelocityAtRest(g: Grid)
    requires Valid(g)
  {
    && IsZero(g.vel.x, g.n) && IsZero(g.vel.y, g.n)
    && IsZero(g.prevVel.x, g.n) && IsZero(g.prevVel.y, g.n)
    && IsZero(g.srcVel.x, g.n) && IsZero(g.srcVel.y, g.n)
  }

  /** Fluid at rest with no velocity source stays at rest: `vStep` leaves
      such a grid exactly as it was. */
  lemma VStepAtRest(g: Grid, cfg: Config)
    requires Ready(g, cfg) && VelocityAtRest(g)
    ensures VStep(g, cfg) == g
  {
    var g1 := SwapV(VelocitySources(g, cfg));
    SourcesAtRest(g, cfg);
    var g2 := DiffuseVelocity(g1, cfg);
    DiffusionAtRest(g1, cfg);
    var g3 := SwapV(ProjectVelocity(g2, cfg));
    ProjectionAtRest(g2, cfg);
    var g4 := AdvectVelocity(g3, cfg);
    AdvectionAtRest(g3, cfg);
    var r := ProjectVelocity(g4, cfg);
    ProjectionAtRest(g4, cfg);
    AtRestIsUnique(r, g);
  }

  /** Two grids that differ at most in their velocity buffers, all of them
      zero in both, are equal. */
  lemma AtRestIsUnique(g: Grid, h: Grid)
    requires Valid(g) && Valid(h) && VelocityAtRest(g) && VelocityAtRest(h)
    requires g.(vel := h.vel, prevVel := h.prevVel, srcVel := h.srcVel) == h
    ensures g == h
  {
    var d := g.n;
    Extensionality(g.vel.x, h.vel.x, d);
    Extensionality(g.vel.y, h.vel.y, d);
    Extensionality(g.prevVel.x, h.prevVel.x, d);
    Extensionality(g.prevVel.y, h.prevVel.y, d);
    Extensionality(g.srcVel.x, h.srcVel.x, d);
    Extensionality(g.srcVel.y, h.srcVel.y, d);
  }

  lemma SourcesAtRest(g: Grid, cfg: Config)
    requires Valid(g) && VelocityAtRest(g)
    ensures VelocityAtRest(VelocitySources(g, cfg))
  {
  }

  lemma DiffusionAtRest(g: Grid, cfg: Config)
    requires Ready(g, cfg) && VelocityAtRest(g)
    ensures VelocityAtRest(DiffuseVelocity(g, cfg))
  {
    var a := Coefficient(cfg, cfg.visc);
    DiffuseOfZero(g.vel.x, g.prevVel.x, g.n, a, cfg.iters, Boundary.ForAxis(0));
    DiffuseOfZero(g.vel.y, g.prevVel.y, g.n, a, cfg.iters, Boundary.ForAxis(1));
  }

  lemma ProjectionAtRest(g: Grid, cfg: Config)
    requires Ready(g, cfg) && VelocityAtRest(g)
    ensures VelocityAtRest(ProjectVelocity(g, cfg))
  {
    ProjectOfZero(g.vel, g.prevVel, g.n, g.width, g.height, cfg.iters);
  }

  lemma AdvectionAtRest(g: Grid, cfg: Config)
    requires Ready(g, cfg) && VelocityAtRest(g)
    ensures VelocityAtRest(AdvectVelocity(g, cfg))
  {
    var d, dt := g.n, cfg.dt;
    var x := AdvectInPlace(g.vel.x, g.prevVel.x, WritesX(g.vel.y), d, dt, g.lenX, g.lenY, Boundary.ForAxis(0));
    assert IsZero(x, d) by {
      AdvectOfZero(g.vel.x, g.prevVel.x, g.vel.x, g.vel.y, d, dt, g.lenX, g.lenY, Boundary.ForAxis(0));
    }
    var y := AdvectInPlace(g.vel.y, g.prevVel.y, WritesY(x), d, dt, g.lenX, g.lenY, Boundary.ForAxis(1));
    assert IsZero(y, d) by {
      AdvectOfZero(g.vel.y, g.prevVel.y, x, g.vel.y, d, dt, g.lenX, g.lenY, Boundary.ForAxis(1));
    }
    assert AdvectVelocity(g, cfg) == g.(vel := Vec(x, y));
  }

  /** Diffusing a zero field against a zero field gives zero. */
  lemma DiffuseOfZero(cur: Field, prev: Field, d: Dims, a: real, iters: nat, mode: Boundary.Mode)
    requires Shaped(cur, d) && Shaped(prev, d) && 1.0 + 4.0 * a != 0.0
    requires IsZero(cur, d) && IsZero(prev, d)
    ensures IsZero(Diffuse(cur, prev, d, a, iters, mode), d)
  {
    var c, fin := 1.0 + 4.0 * a, Relaxation.Impose(mode);
    var r := Relaxation.Iterate(cur, prev, d, a, c, iters, fin);
    assert IsZero(r, d) by {
      Relaxation.ZeroStaysZero(cur, prev, d, a, c, iters, fin);
    }
    assert Diffuse(cur, prev, d, a, iters, mode) == r;
  }

  /** In still fluid without diffusion, `dStep` only accumulates sources:
      with zero interior velocity, a zero diffusion coefficient and at least
      one solver iteration, each interior density cell becomes
      dens + dt * prev_dens + dt * src_dens, and the border mirrors it. */
  lemma DStepInStillFluid(g: Grid, cfg: Config)
    requires Ready(g, cfg) && cfg.iters >= 1 && Coefficient(cfg, cfg.diff) == 0.0
    requires forall i, j :: Interior(g.n, i, j) ==> g.vel.x[i][j] == 0.0 && g.vel.y[i][j] == 0.0
    ensures forall i, j :: Interior(g.n, i, j) ==>
      DStep(g, cfg).dens[i][j] == g.dens[i][j] + cfg.dt * g.prevDens[i][j] + cfg.dt * g.srcDens[i][j]
  {
    var h := SwapD(DiffuseDensity(SwapD(DensitySources(g, cfg)), cfg));
    StillDiffusionCopies(g, h, cfg);
    StillAdvectionCopies(h, cfg);
  }

  /** The first four stages of `dStep` without diffusion: prev_dens ends up
      holding, on the interior, the density with both sources added. */
  lemma StillDiffusionCopies(g: Grid, h: Grid, cfg: Config)
    requires Ready(g, cfg) && cfg.iters >= 1 && Coefficient(cfg, cfg.diff) == 0.0
    requires h == SwapD(DiffuseDensity(SwapD(DensitySources(g, cfg)), cfg))
    ensures Ready(h, cfg) && h.(dens := g.dens, prevDens := g.prevDens) == g
    ensures forall i, j :: Interior(g.n, i, j) ==>
      h.prevDens[i][j] == g.dens[i][j] + cfg.dt * g.prevDens[i][j] + cfg.dt * g.srcDens[i][j]
  {
    var g1 := SwapD(DensitySources(g, cfg));
    assert SameInterior(DiffuseDensity(g1, cfg).dens, g1.prevDens, g.n);
  }

  /** Advection along a velocity that is zero on the interior keeps the
      interior of prev_dens. */
  lemma StillAdvectionCopies(g: Grid, cfg: Config)
    requires Ready(g, cfg)
    requires forall i, j :: Interior(g.n, i, j) ==> g.vel.x[i][j] == 0.0 && g.vel.y[i][j] == 0.0
    ensures SameInterior(AdvectDensity(g, cfg).dens, g.prevDens, g.n)
  {
    AdvectAtRest(g.dens, g.prevDens, g.vel.x, g.vel.y, g.n, cfg.dt, g.lenX, g.lenY, Boundary.Mirror);
  }

  /** The three density buffers are all zero. */
  ghost predicate DensityEmpty(g: Grid)
    requires Valid(g)
  {
    IsZero(g.dens, g.n) && IsZero(g.prevDens, g.n) && IsZero(g.srcDens, g.n)
  }

  /** Whatever the velocity, `dStep` keeps an empty tank empty. */
  lemma DStepOfEmpty(g: Grid, cfg: Config)
    requires Ready(g, cfg) && DensityEmpty(g)
    ensures DStep(g, cfg) == g
  {
    var g1 := SwapD(DensitySources(g, cfg));
    assert IsZero(g1.prevDens, g.n) && IsZero(g1.dens, g.n);
    var g2 := SwapD(DiffuseDensity(g1, cfg));
    assert IsZero(g2.prevDens, g.n) by {
      DiffuseOfZero(g1.dens, g1.prevDens, g.n, Coefficient(cfg, cfg.diff), cfg.iters, Boundary.Mirror);
    }
    var r := AdvectDensity(g2, cfg);
    assert IsZero(r.dens, g.n) by {
      AdvectOfZero(g2.dens, g2.prevDens, g2.vel.x, g2.vel.y, g.n, cfg.dt, g.lenX, g.lenY, Boundary.Mirror);
    }
    Extensionality(r.dens, g.dens, g.n);
    Extensionality(r.prevDens, g.prevDens, g.n);
  }

  /** An empty, still tank stays empty and still through `vStep` and `dStep`. */
  lemma AdvanceOfEmptyTank(g: Grid, cfg: Config)
    requires Ready(g, cfg) && VelocityAtRest(g) && DensityEmpty(g)
    ensures Advance(g, cfg) == g
  {
    VStepAtRest(g, cfg);
    DStepOfEmpty(g, cfg);
  }
}
