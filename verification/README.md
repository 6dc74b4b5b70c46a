# JS-fluid-solver in Dafny

A model of the numerical core of JS-fluid-solver. This is a browser
implementation of Jos Stam's "stable fluids" method on a 2D grid of
`N[X] x N[Y]` interior cells. Each field has a one-cell border ring.

The model covers these parts of the source:

- **`Grid` (grid.js).** This object owns three velocity buffers (current,
  previous, source) and three density buffers. It swaps buffers by reference,
  clears them, injects sources at the cell that contains a point, and reads
  values with a border-aware lookup.
- **`Simulator` (simulator.js).** It provides:
  - `setBoundary`, with its three modes;
  - `addSource`;
  - `diffuse`, an in-place Gauss-Seidel relaxation with a boundary pass after
    every sweep;
  - `advect`, a semi-Lagrangian backtrace that combines the four cells around the traced point;
  - `project`, which computes the divergence, solves a Poisson equation for
    the pressure and subtracts the gradient;
  - `vStep` and `dStep`, which sequence the steps above with buffer swaps;
  - `addGravity`.
- **`GSSolver` (gs_solver.js).** This is a standalone Gauss-Seidel solver. The
  simulator never calls it.
- **utils.js.** The `zeros*` allocators.

The model is written in a functional style. A field is a `seq<seq<real>>` of
shape `(N[X]+2) x (N[Y]+2)`. The model uses the `k = 1` slice of the source's
3D arrays, which is the only slice the 2D simulation reads. A grid is an
immutable record of its six buffers.

The source's loops over the grid are modelled in two ways:

- A loop in which each cell reads the buffer it writes only at its own
  index, before writing it, becomes an order-free `seq` comprehension. This covers `addSource`, the divergence
  and gradient loops of `project`, `clearArrays` and `addGravity`.
- A loop whose cells read what the same loop writes becomes a recursive
  function that follows the same visiting order, with one `Set` per
  assignment. A method whose loop invariants tie it to such a function covers
  `GSSolver.Solve`. There are two such loops:
  - The relaxation reads neighbours already updated in the same sweep.
  - `advect` in `vStep` writes `vel[dim]` while it reads `vel` as the
    transport field (simulator.js:189-190). `Simulator.AdvectInPlace` runs
    that loop in order, reading the transport velocity from the live buffers.
    It proves the result equals the order-free `Simulator.Advect` computed
    from the velocity on entry. The reason is that each cell reads the
    written buffer only at its own index, before writing it.

The relaxation's order matters, because every update reads neighbours that
were already updated in the same sweep. `Relaxation.SweepIsGaussSeidel`
characterises the order independently of the loop. It shows that the sweep
result is the one field in which:

- every interior cell solves its stencil, using the new west and south
  neighbours and the old east and north neighbours; and
- the border is untouched.

Arithmetic is exact (`real`). The value of `Math.sqrt(width * height)` that
scales diffusion is the `scale` field of `Simulator.Config`.

Where the code is unusual, the model follows it:

- **Advection weights.** `advect` computes its weight as
  `s1 = (end_x - start_x) / lX`, the clamped displacement measured in cells,
  as simulator.js:83-86 writes it. Stam's published scheme uses the
  fractional offset `x - i0` instead. The two differ:
  `Simulator.ShortBacktraceWeight` shows that a step back of less than one
  cell from cell i lands in cell i - 1 with a negative s1, equal to the
  fractional offset minus one. With t1 = 0, cell 2 of a grid with unit cells
  stepping back a quarter cell gets 1.25 prev[1] - 0.25 prev[2]. That is an
  extrapolation; the bilinear sample at 1.75 would be
  0.25 prev[1] + 0.75 prev[2].
- **vStep transport field.** `vStep` advects along `this.grid.vel` after the
  second `swapV` (simulator.js:187-191). At that point `vel` holds the
  pressure and divergence that the first `project` left in its scratch
  buffers, not the projected velocity. `Simulator.VStep` composes the buffers
  exactly as the source does. The y pass also reads the x component that the
  x pass has just rewritten.
- **Iteration counts.** The solver iteration count may be 0. The loops then
  do nothing, and the model says what that leaves.
- **addGravity.** `addGravity` assigns the value, so calling it with `-g`
  sets the y source to `-g` and does not cancel gravity
  (`Simulator.GravityLastCallWins`). The source's comment says the call
  removes gravity.

## Model

| member | source | states |
|---|---|---|
| Utils.Zeros | utils.js:7-9 | a sequence of length n whose every entry is 0 |
| Utils.Zeros2d | utils.js:13-18 | n rows of length m, every entry 0 |
| Utils.Zeros3d | utils.js:22-27 | shape n x m x l, every entry 0 |
| Utils.Zeros4d | utils.js:31-36 | shape n x m x l x k, every entry 0 |
| Utils.NewZeros2d | utils.js:13-18 | as allocated arrays: n fresh zero rows of length m, pairwise distinct, so that writing one row never changes another |
| Grids.NewGrid | grid.js:27-55 | cell length times (N + 2) is the domain size on each axis; all six buffers have shape (N+2) x (N+2) and are zero |
| Grids.ClearArrays | grid.js:58-68 | both velocity components and the density buffer come back all zero, border included |
| Grids.ClearSources | grid.js:71-73 | src_vel and src_dens are zero; every other buffer and field is unchanged |
| Grids.ClearCurrent | grid.js:76-78 | vel and dens are zero; everything else is unchanged |
| Grids.ClearPrev | grid.js:81-83 | prev_vel and prev_dens are zero; everything else is unchanged |
| Grids.AddVelSource | grid.js:88-92 | succeeds exactly when the containing cell lies in the arrays (otherwise the source throws); the two src_vel components at that cell are set to vX and vY, and no other cell or buffer changes |
| Grids.AddDensSource | grid.js:97-100 | succeeds exactly when the containing cell is in range; src_dens at that cell is set (not increased) to d, and nothing else changes |
| Grids.ClearSourcesForgetsInjection | grid.js:71-100 | clearing the sources after an injection gives the same grid as clearing them without it |
| Grids.SwapV | grid.js:103-107 | vel and prev_vel trade places with their contents intact; nothing else changes |
| Grids.SwapD | grid.js:110-114 | dens and prev_dens trade places; nothing else changes |
| Grids.SwapVInvolution | grid.js:103-107 | two velocity swaps restore the grid |
| Grids.SwapDInvolution | grid.js:110-114 | two density swaps restore the grid |
| Grids.GetD | grid.js:118-123 | reads dens, or prev_dens when prev is set, at the index clamped into the interior |
| Grids.Get | grid.js:128-159 | terminates (corner cases recurse only into edge cases); every lookup equals A at the index clamped into 1..N on both axes |
| Grids.GetReadsMirroredField | grid.js:128-159 | on a field that satisfies the mirror boundary condition, the lookup returns the stored value of every cell, corners included |
| Grids.ContainerCell | grid.js:163-168 | the index is floor(x / len_cells) per axis: the cell's extent [i*lX, (i+1)*lX) contains x, and likewise for y |
| Grids.ContainerCellInGrid | grid.js:163-168 | the cell index lies in 0..N+1 on both axes exactly when 0 <= x < width and 0 <= y < height |
| Grids.RegisterClick | grid.js:172-175 | succeeds exactly when the cell is in range; the current density at the cell is set to val, and nothing else changes |
| Boundary.Code | simulator.js:7-9 | the three boundary modes carry the integer codes 0, 1, 2 |
| Boundary.ForAxis | simulator.js:185-191 | the mode passed for velocity component dim has code dim + 1: OPPOSE_X for x, OPPOSE_Y for y |
| Boundary.LeftRight | simulator.js:148-157 | after rows 1..j: both side edge cells are the nearest interior cell, negated exactly in OPPOSE_X; no other cell changes |
| Boundary.TopBottom | simulator.js:159-168 | after columns 1..i: both top/bottom edge cells are the nearest interior cell, negated exactly in OPPOSE_Y; no other cell changes |
| Boundary.EdgePasses | simulator.js:148-168 | the two edge loops together keep the interior and make every non-corner edge cell its interior neighbour, negated exactly under the matching oppose mode |
| Boundary.Corners | simulator.js:170-173 | each corner becomes the mean of its two adjacent edge cells of the input; no corner reads another corner, so the order of the four writes does not matter |
| Boundary.CornersFrame | simulator.js:170-173 | the corner assignments change no cell other than the four corners |
| Boundary.CornersComplete | simulator.js:170-173 | after the edge loops, the corner assignments complete the boundary condition and leave the interior and edges as the edge loops made them |
| Boundary.SetBoundary | simulator.js:140-174 | the interior is kept; left/right edges are the interior neighbour, negated iff OPPOSE_X; top/bottom edges likewise iff OPPOSE_Y; each corner is the mean of its two adjacent edge cells |
| Boundary.DependsOnlyOnInterior | simulator.js:140-174 | only the border is written: fields with the same interior give the same result |
| Boundary.FixedPointIffHolds | simulator.js:140-174 | a field is unchanged by the boundary pass exactly when it already satisfies the mode's boundary condition |
| Boundary.Idempotent | simulator.js:140-174 | applying the boundary pass twice equals applying it once |
| Boundary.ZeroInteriorGivesZero | simulator.js:140-174 | a zero interior gives an all-zero field in every mode |
| Relaxation.RowPrefix | simulator.js:45-51 | the inner loop: cells (i,1)..(i,j) each solve the stencil with the neighbour (i, q-1) as just updated; no other cell changes |
| Relaxation.RowsDone | simulator.js:44-52 | the outer loop: rows 1..i written, every other cell (borders included) untouched |
| Relaxation.RowsDoneSolved | simulator.js:44-52 | every swept cell solves its stencil, with the west and south neighbours new and the east and north neighbours old |
| Relaxation.SweepIsGaussSeidel | simulator.js:44-52 | a field is an in-place Gauss-Seidel step from x (border untouched, each interior cell solved in sweep order) if and only if it is the sweep's result |
| Relaxation.KeepLeavesBorder | gs_solver.js:32-40 | without a boundary pass, any number of sweeps leaves the border of x unchanged |
| Relaxation.ImposedBoundaryHolds | simulator.js:43-53 | when every sweep is followed by the boundary pass, one or more sweeps leave a field that satisfies that pass's boundary condition |
| Relaxation.ZeroCoefficientCopies | simulator.js:43-53 | with a = 0 (divisor 1), one or more sweeps make the interior equal to the right-hand side, whatever the initial guess and with or without boundary passes |
| Relaxation.ZeroStaysZero | simulator.js:43-53 | relaxing a zero field against a zero right-hand side keeps it zero, with or without boundary passes |
| GSSolver.SetNumIterations | gs_solver.js:22-24 | only n_iters changes; a later solve runs max(n, 0) sweeps |
| GSSolver.Solve | gs_solver.js:28-40 | n_iters sweeps of x = div * (b + a * neighbours), div = 1/(1+4a), equal to relaxation with divisor 1+4a; the border of x is never written; n_iters <= 0 leaves x unchanged; a = 0 with a sweep copies b's interior |
| GSSolver.SweepOnce | gs_solver.js:33-39 | the loop pair performs exactly one Gauss-Seidel sweep |
| GSSolver.SweepRow | gs_solver.js:34-38 | the inner loop updates cells (i,1)..(i,nY) in order |
| Simulator.AddSource | simulator.js:28-33 | every cell, border included, becomes dest + dt * source |
| Simulator.AddZeroSource | simulator.js:28-33 | adding a zero source changes nothing |
| Simulator.AddSourceTwice | simulator.js:178-182 | adding two sources in turn equals adding their sum once |
| Simulator.Diffuse | simulator.js:40-54 | zero iterations return cur; after one or more the boundary condition of bMode holds; with a = 0 the interior of cur becomes prev's |
| Simulator.DiffuseOfZero | simulator.js:40-54 | diffusing zero against zero gives zero |
| Simulator.Backtrace | simulator.js:65-81 | the end point is clamped to [0, N*l], so 0 <= i0 <= N and i1 = i0 + 1 <= N + 1 both index the array |
| Simulator.BacktraceAtRest | simulator.js:65-86 | with zero velocity an interior index traces back onto itself (the nudge does not move it) with weight 0 |
| Simulator.ShortBacktraceWeight | simulator.js:65-86 | a step back of less than one cell (and more than the nudge) from interior cell i gives i0 = i - 1 and s1 = -dt v / l < 0, which is the point's fractional offset in cell i0 minus one |
| Simulator.Interpolate | simulator.js:83-88 | the bilinear weights sum to one: four equal corner cells give back their common value, and with both fractional weights 0 the result is the cell at (i0, j0) |
| Simulator.AdvectCell | simulator.js:64-88 | a cell whose own velocity is zero in both components receives prev's value at that same cell |
| Simulator.AdvectCellReadsOwnVelocity | simulator.js:65-75 | a cell's sample reads the velocity only at that cell: two velocity fields that agree there give the same sample |
| Simulator.Advect | simulator.js:59-92 | each interior cell combines the four prev cells around its backtraced point, with the code's weights s1 = (end - start) / l and t1 likewise, reading the velocity only at that cell; the boundary condition of bMode holds |
| Simulator.AdvectOverwritesCur | simulator.js:59-92 | apart from the velocity read from it, the prior contents of cur do not affect the result |
| Simulator.AdvectRow | simulator.js:63-89 | the inner loop in place: cells (i,1)..(i,j) hold their samples taken with the velocity as the row found it (live, when cur is a velocity buffer); no other cell changes |
| Simulator.AdvectRows | simulator.js:62-90 | the outer loop in place: rows 1..i hold their samples; the border and the later rows are untouched |
| Simulator.AdvectInPlace | simulator.js:59-92 | the in-order loop that writes cur while reading the velocity, even when cur is one of the velocity components, equals Advect with the velocity cur held on entry: no cell's sample reads a cell already overwritten |
| Simulator.AdvectAtRest | simulator.js:59-92 | with zero interior velocity the result is exactly setBoundary(prev, bMode) |
| Simulator.AdvectOfZero | simulator.js:59-92 | advecting a zero field gives zero, whatever the velocity |
| Simulator.ProjectStart | simulator.js:100-106 | on the interior, div holds -0.5 (Lx (vx[i+1][j] - vx[i-1][j]) + Ly (vy[i][j+1] - vy[i][j-1])) and p holds 0; the border cells of both keep what buf held, since the loop writes only the interior |
| Simulator.Pressure | simulator.js:107-119 | the pressure after the mirror passes and the Poisson sweeps satisfies the mirror condition |
| Simulator.SubtractGradient | simulator.js:120-125 | each interior velocity loses 0.5 times the central pressure difference divided by Lx (x) or Ly (y); the border cells keep their values, since the loop writes only the interior |
| Simulator.ImposeVelocity | simulator.js:127-128 | the interiors are kept; afterwards vel.x satisfies OPPOSE_X and vel.y OPPOSE_Y |
| Simulator.Project | simulator.js:95-129 | afterwards vel.x satisfies OPPOSE_X and vel.y OPPOSE_Y; the pressure and divergence left in buf satisfy the mirror condition |
| Simulator.ProjectIgnoresScratch | simulator.js:95-129 | the prior contents of buf do not affect any output of project |
| Simulator.ProjectOfZero | simulator.js:95-129 | a zero velocity stays zero, and the pressure and divergence it leaves are zero |
| Simulator.VelocitySources | simulator.js:178-182 | each velocity cell becomes vel + dt * prev_vel + dt * src_vel; no other buffer changes |
| Simulator.DiffuseVelocity | simulator.js:184-186 | only vel changes; with one or more iterations, x satisfies OPPOSE_X and y satisfies OPPOSE_Y |
| Simulator.ProjectVelocity | simulator.js:187-192 | the projection vStep runs after diffusion (line 187) and again after advection (line 192): only vel and prev_vel change; vel.x satisfies OPPOSE_X, vel.y OPPOSE_Y, and both prev_vel components the mirror condition |
| Simulator.AdvectVelocity | simulator.js:189-191 | each component is advected in place (through Simulator.AdvectInPlace) from prev_vel along grid.vel: the x pass samples with the velocity on entry although it overwrites vel.x, and the y pass uses the x component the x pass wrote; only vel changes and the boundary conditions hold |
| Simulator.VStep | simulator.js:177-193 | only the velocity buffers change; vel.x satisfies OPPOSE_X and vel.y OPPOSE_Y; both prev_vel components satisfy the mirror condition |
| Simulator.VStepAtRest | simulator.js:177-193 | a grid whose six velocity buffers are all zero is left unchanged by vStep |
| Simulator.DensitySources | simulator.js:198-199 | each density cell becomes dens + dt * prev_dens + dt * src_dens; nothing else changes |
| Simulator.DiffuseDensity | simulator.js:201-202 | only dens changes; after one or more iterations it satisfies the mirror condition |
| Simulator.AdvectDensity | simulator.js:204-205 | only dens changes; each interior cell is the `AdvectCell` combination of prev_dens around its point backtraced along vel, and dens satisfies the mirror condition |
| Simulator.DStep | simulator.js:196-207 | only dens and prev_dens change; dens satisfies the mirror condition, and so does prev_dens after one or more iterations |
| Simulator.DStepInStillFluid | simulator.js:196-207 | with zero interior velocity, no diffusion and one or more iterations, each interior density cell becomes dens + dt * prev_dens + dt * src_dens |
| Simulator.DStepOfEmpty | simulator.js:196-207 | zero density buffers stay zero, whatever the velocity |
| Simulator.Advance | simulator.js:224-225 | vStep then dStep keeps the sources; the velocity and density boundary conditions hold afterwards |
| Simulator.AdvanceOfEmptyTank | simulator.js:224-225 | a grid with every velocity and density buffer zero is a fixed point of vStep followed by dStep |
| Simulator.AddGravity | simulator.js:232-237 | every cell of src_vel[Y], border included, is set to g; everything else is unchanged |
| Simulator.GravityLastCallWins | simulator.js:232-237 | a second call overrides the first rather than adding to it |

## Left out

- Rendering (grid.js:179-262), ui.js and fluids.js are not part of this model. They draw to a canvas and read the DOM.
- `step` (simulator.js:210-227) is not part of this model. It reads the mouse state from the UI object and then renders. Its numerical work, `vStep` followed by `dStep`, is `Simulator.Advance`. The clears and source injection it performs are modelled as separate operations.
- The third (z) dimension is left out. This covers the z velocity component, the `k = 0` and `k = 2` slices of the arrays (written only by `addSource`, `clearArrays` and `addGravity`, and never read by the 2D simulation), the z coordinate of `getContainerCell`, and the z argument of `get`.
- Floating-point rounding is left out: arithmetic is exact. The 0.000001 nudge before `Math.floor` is kept as an exact constant.
- No claim is made that the relaxation converges, or that `project` reduces divergence. The source's comment (simulator.js:94) says `project` makes the velocities mass-conserving, but with a fixed sweep count and no convergence check that holds only approximately, so the model leaves it out.
- `Math.sqrt(width * height)` in `diffuse` is not computed. It becomes the `scale` parameter, and `a = dt * k * scale`.
- Grid sizes are at least 1 cell per axis (`Count`). With `N = 0` the corner recursion of `get` does not terminate. In `setBoundary` the edge loops (simulator.js:148, 159) then run zero times, and each corner assignment reads another corner: `X[1][0]` is the corner (edgeX, 0).
- Simulator.Advect: requires positive cell lengths. With a zero cell length the source divides by zero and indexes with NaN.
- Simulator.Project: requires a non-zero width and height, because `Lx = 1 / width` and the gradient step divides by `Lx`.
- Simulator.Diffuse: requires `1 + 4a != 0`, because the source divides by it.
- GSSolver.Solve: requires `1 + 4a != 0`, because `div = 1 / (1 + 4a)`.
- gs_solver.js ends `solve` with a stray `{` (line 41) where `}` was meant. The model follows the evident intent of a closed loop nest, and nothing calls the solver.
- Grids.ContainerCell: requires positive cell lengths. With a zero length the source divides by zero, floors an infinity or NaN, and the index it returns makes the caller throw a TypeError. A negative length is not modelled either.
- Grids.AddVelSource: requires positive cell lengths, for the reason given for `Grids.ContainerCell` (the throw happens at grid.js:90).
- Grids.AddDensSource: requires positive cell lengths, for the same reason (grid.js:99).
- Grids.RegisterClick: requires positive cell lengths, for the same reason (grid.js:174).
- Grids.Get: requires an index in 0..N+1 on both axes. Outside that range the source reads a missing array entry and throws a TypeError (grid.js:149-158); the model does not represent the throw.
- Utils.Zeros3d: states shape and contents but not non-aliasing. Nested sequences are values, so the aliasing question does not arise; `Utils.NewZeros2d` states it for the allocated rows.
- Utils.Zeros4d: the same as `Utils.Zeros3d`, for the same reason.
