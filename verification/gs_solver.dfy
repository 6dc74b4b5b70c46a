/** The standalone relaxation solver of gs_solver.js (`GSSolver`), which the
    simulator itself does not call. */
module GSSolver {
  import opened Fields
  import Relaxation

  /** `GSSolver(nX, nY, n_iters)`. */
  datatype Solver = Solver(nX: Count, nY: Count, nIters: int) {
    function Dims(): Fields.Dims {
      Fields.Dims(nX, nY)
    }

    /** How many sweeps `solve` runs: max(n_iters, 0). */
    function Sweeps(): (k: nat)
      ensures k as int == nIters || (nIters < 0 && k == 0)
    {
      if nIters < 0 then 0 else nIters
    }
  }

  /** `setNumIterations(n)`: the iteration count becomes n, the grid size is
      kept, and a later solve runs max(n, 0) sweeps. */
  function SetNumIterations(s: Solver, n: int): (r: Solver)
    ensures r.nIters == n && r.nX == s.nX && r.nY == s.nY
    ensures r.Sweeps() == if n < 0 then 0 else n
  {
    s.(nIters := n)
  }

  /** `solve(x, b, a)`: n_iters in-place sweeps
        x[i][j] = div * (b[i][j] + a * (x[i-1][j] + x[i+1][j] + x[i][j-1] + x[i][j+1]))
      with div = 1 / (1 + 4a), i outer and j inner, no early exit and no
      boundary pass. The result is the relaxation reference with divisor
      1 + 4a; only interior cells are written; no iterations leave x as it
      was; with a = 0 the interior becomes b's. */
  method Solve(s: Solver, x: Field, b: Field, a: real) returns (r: Field)
    requires Shaped(x, s.Dims()) && Shaped(b, s.Dims())
    requires 1.0 + 4.0 * a != 0.0
    ensures Shaped(r, s.Dims())
    ensures r == Relaxation.Iterate(x, b, s.Dims(), a, 1.0 + 4.0 * a, s.Sweeps(), Relaxation.Keep)
    ensures forall p, q :: OnBorder(s.Dims(), p, q) ==> r[p][q] == x[p][q]
    ensures s.nIters <= 0 ==> r == x
    ensures a == 0.0 && s.nIters >= 1 ==> SameInterior(r, b, s.Dims())
  {
    var d := s.Dims();
    var div := 1.0 / (1.0 + 4.0 * a);
    r := x;
    var iter := 0;
    while iter < s.nIters
      invariant 0 <= iter <= s.Sweeps()
      invariant Shaped(r, d)
      invariant r == Relaxation.Iterate(x, b, d, a, 1.0 + 4.0 * a, iter, Relaxation.Keep)
    {
      r := SweepOnce(r, b, d, a, div);
      iter := iter + 1;
    }
    assert iter == s.Sweeps();
    Relaxation.KeepLeavesBorder(x, b, d, a, 1.0 + 4.0 * a, s.Sweeps());
    if a == 0.0 && s.nIters >= 1 {
      Relaxation.ZeroCoefficientCopies(x, b, d, a, s.Sweeps(), Relaxation.Keep);
    }
  }

  /** One pass of the i (outer) and j (inner) loops of `solve`. */
  method SweepOnce(x: Field, b: Field, d: Dims, a: real, div: real) returns (r: Field)
    requires Shaped(x, d) && Shaped(b, d)
    requires 1.0 + 4.0 * a != 0.0 && div == 1.0 / (1.0 + 4.0 * a)
    ensures Shaped(r, d)
    ensures r == Relaxation.Sweep(x, b, d, a, 1.0 + 4.0 * a)
  {
    r := x;
    var i := 1;
    while i <= d.nx
      invariant 1 <= i <= d.nx + 1
      invariant Shaped(r, d)
      invariant r == Relaxation.RowsDone(x, b, d, a, 1.0 + 4.0 * a, i - 1)
    {
      r := SweepRow(r, b, d, a, div, i);
      i := i + 1;
    }
  }

  /** The inner loop of `solve` for row i: cells (i, 1), ..., (i, nY) in turn. */
  method SweepRow(s: Field, b: Field, d: Dims, a: real, div: real, i: int) returns (r: Field)
    requires Shaped(s, d) && Shaped(b, d) && 1 <= i <= d.nx
    requires 1.0 + 4.0 * a != 0.0 && div == 1.0 / (1.0 + 4.0 * a)
    ensures Shaped(r, d)
    ensures r == Relaxation.RowPrefix(s, b, d, a, 1.0 + 4.0 * a, i, d.ny)
  {
    r := s;
    var j := 1;
    while j <= d.ny
      invariant 1 <= j <= d.ny + 1
      invariant Shaped(r, d)
      invariant r == Relaxation.RowPrefix(s, b, d, a, 1.0 + 4.0 * a, i, j - 1)
    {
      var e := b[i][j] + a * (r[i - 1][j] + r[i + 1][j] + r[i][j - 1] + r[i][j + 1]);
      MultiplyByReciprocal(e, 1.0 + 4.0 * a, div);
      r := Set(r, i, j, div * e);
      j := j + 1;
    }
  }

  /** Multiplying by the precomputed `div = 1 / (1 + 4a)` is dividing by 1 + 4a. */
  lemma MultiplyByReciprocal(e: real, c: real, div: real)
    requires c != 0.0 && div == 1.0 / c
    ensures div * e == e / c
  {
  }
}
