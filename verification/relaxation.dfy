/** In-place Gauss-Seidel relaxation of the 5-point stencil
        x[i][j] = (b[i][j] + a * (x[i-1][j] + x[i+1][j] + x[i][j-1] + x[i][j+1])) / c
    over the interior cells, i outer and j inner, as `diffuse` (c = 1 + 4a),
    `project` (a = 1, c = 4) and `GSSolver.solve` (c = 1 + 4a) run it. */
module Relaxation {
  import opened Fields
  import Boundary

  /** The stencil value for one cell, from its right-hand side and the four
      neighbour values read at the time of the update. */
  function Stencil(rhs: real, a: real, c: real, west: real, east: real, south: real, north: real): real
    requires c != 0.0
  {
    (rhs + a * (west + east + south + north)) / c
  }

  /** The value the sweep assigns to interior cell (i, j) of the current state x. */
  function Update(x: Field, b: Field, d: Dims, a: real, c: real, i: int, j: int): real
    requires Shaped(x, d) && Shaped(b, d) && Interior(d, i, j) && c != 0.0
  {
    Stencil(b[i][j], a, c, x[i - 1][j], x[i + 1][j], x[i][j - 1], x[i][j + 1])
  }

  /** The state after the inner loop has updated cells (i, 1), ..., (i, j) of
      s, each reading the neighbours current at its turn. */
  function RowPrefix(s: Field, b: Field, d: Dims, a: real, c: real, i: int, j: nat): (r: Field)
    requires Shaped(s, d) && Shaped(b, d) && 1 <= i <= d.nx && j <= d.ny && c != 0.0
    ensures Shaped(r, d)
    ensures forall p, q :: InRange(d, p, q) && !(p == i && 1 <= q <= j) ==> r[p][q] == s[p][q]
    ensures forall q :: 1 <= q <= j ==>
      r[i][q] == Stencil(b[i][q], a, c, s[i - 1][q], s[i + 1][q], r[i][q - 1], s[i][q + 1])
  {
    if j == 0 then s
    else
      var t := RowPrefix(s, b, d, a, c, i, j - 1);
      Set(t, i, j, Update(t, b, d, a, c, i, j))
  }

  /** The state after the outer loop has swept rows 1..i of x. */
  function RowsDone(x: Field, b: Field, d: Dims, a: real, c: real, i: nat): (r: Field)
    requires Shaped(x, d) && Shaped(b, d) && i <= d.nx && c != 0.0
    ensures Shaped(r, d)
    ensures forall p, q :: InRange(d, p, q) && !(1 <= p <= i && 1 <= q <= d.ny) ==> r[p][q] == x[p][q]
  {
    if i == 0 then x
    else RowPrefix(RowsDone(x, b, d, a, c, i - 1), b, d, a, c, i, d.ny)
  }

  /** Every cell of the swept rows solves its stencil, reading the west and
      south neighbours after their own update and the east and north
      neighbours before theirs. */
  lemma {:induction false} RowsDoneSolved(x: Field, b: Field, d: Dims, a: real, c: real, i: nat)
    requires Shaped(x, d) && Shaped(b, d) && i <= d.nx && c != 0.0
    ensures forall p, q :: 1 <= p <= i && 1 <= q <= d.ny ==> CellSolved(x, b, RowsDone(x, b, d, a, c, i), d, a, c, p, q)
  {
    if i > 0 {
      RowsDoneSolved(x, b, d, a, c, i - 1);
      var s := RowsDone(x, b, d, a, c, i - 1);
      var r := RowsDone(x, b, d, a, c, i);
      forall p, q | 1 <= p <= i && 1 <= q <= d.ny
        ensures CellSolved(x, b, r, d, a, c, p, q)
      {
        if p < i {
          assert CellSolved(x, b, s, d, a, c, p, q);
          assert r[p][q] == s[p][q] && r[p - 1][q] == s[p - 1][q] && r[p][q - 1] == s[p][q - 1];
        } else {
          assert s[p - 1][q] == r[p - 1][q] && s[p + 1][q] == x[p + 1][q] && s[p][q + 1] == x[p][q + 1];
        }
      }
    }
  }

  /** Interior cell (p, q) of r solves its stencil with the west and south
      neighbours taken from r (already updated in this sweep) and the east and
      north neighbours taken from x (not yet updated). */
  ghost predicate CellSolved(x: Field, b: Field, r: Field, d: Dims, a: real, c: real, p: int, q: int)
    requires Shaped(x, d) && Shaped(b, d) && Shaped(r, d) && Interior(d, p, q) && c != 0.0
  {
    r[p][q] == Stencil(b[p][q], a, c, r[p - 1][q], x[p + 1][q], r[p][q - 1], x[p][q + 1])
  }

  /** One full sweep over the interior. It writes interior cells only;
      `SweepIsGaussSeidel` says what it writes there. */
  function Sweep(x: Field, b: Field, d: Dims, a: real, c: real): (r: Field)
    requires Shaped(x, d) && Shaped(b, d) && c != 0.0
    ensures Shaped(r, d)
  {
    RowsDone(x, b, d, a, c, d.nx)
  }

  /** r is what one in-place Gauss-Seidel sweep leaves when started from x:
      the border is untouched, and every interior cell solves its stencil
      with the already-updated west and south neighbours (from r) and the
      not-yet-updated east and north neighbours (from x). */
  ghost predicate GaussSeidelStep(x: Field, b: Field, r: Field, d: Dims, a: real, c: real)
    requires Shaped(x, d) && Shaped(b, d) && Shaped(r, d) && c != 0.0
  {
    && (forall p, q :: OnBorder(d, p, q) ==> r[p][q] == x[p][q])
    && (forall p, q :: Interior(d, p, q) ==> CellSolved(x, b, r, d, a, c, p, q))
  }

  /** The sweep is a Gauss-Seidel step, and the only one: any field that is a
      Gauss-Seidel step from x is the sweep's result. */
  lemma SweepIsGaussSeidel(x: Field, b: Field, r: Field, d: Dims, a: real, c: real)
    requires Shaped(x, d) && Shaped(b, d) && Shaped(r, d) && c != 0.0
    ensures GaussSeidelStep(x, b, r, d, a, c) <==> r == Sweep(x, b, d, a, c)
  {
    var s := Sweep(x, b, d, a, c);
    RowsDoneSolved(x, b, d, a, c, d.nx);
    assert GaussSeidelStep(x, b, s, d, a, c);
    if GaussSeidelStep(x, b, r, d, a, c) {
      forall p, q | InRange(d, p, q)
        ensures r[p][q] == s[p][q]
      {
        if Interior(d, p, q) {
          StepsAgree(x, b, r, s, d, a, c, p, q);
        }
      }
      Extensionality(r, s, d);
    }
  }

  /** Two Gauss-Seidel steps from the same x agree on every cell, by
      induction in sweep order. */
  lemma {:induction false} StepsAgree(x: Field, b: Field, r: Field, s: Field, d: Dims, a: real, c: real, p: int, q: int)
    requires Shaped(x, d) && Shaped(b, d) && Shaped(r, d) && Shaped(s, d) && c != 0.0
    requires GaussSeidelStep(x, b, r, d, a, c) && GaussSeidelStep(x, b, s, d, a, c)
    requires Interior(d, p, q)
    ensures r[p][q] == s[p][q]
    decreases p, q
  {
    if p > 1 {
      StepsAgree(x, b, r, s, d, a, c, p - 1, q);
    } else {
      assert OnBorder(d, p - 1, q);
    }
    if q > 1 {
      StepsAgree(x, b, r, s, d, a, c, p, q - 1);
    } else {
      assert OnBorder(d, p, q - 1);
    }
    assert CellSolved(x, b, r, d, a, c, p, q) && CellSolved(x, b, s, d, a, c, p, q);
  }

  /** What happens after each sweep: nothing (`GSSolver.solve`) or a
      `setBoundary` pass with the given mode (`diffuse`, `project`). */
  datatype Finish = Keep | Impose(mode: Boundary.Mode)

  /** n sweeps, each followed by the finishing pass. With no sweeps x comes
      back unchanged. */
  function Iterate(x: Field, b: Field, d: Dims, a: real, c: real, n: nat, fin: Finish): (r: Field)
    requires Shaped(x, d) && Shaped(b, d) && c != 0.0
    ensures Shaped(r, d)
  {
    if n == 0 then x
    else
      var y := Sweep(Iterate(x, b, d, a, c, n - 1, fin), b, d, a, c);
      match fin
      case Keep => y
      case Impose(m) => Boundary.SetBoundary(y, d, m)
  }

  /** Without a finishing pass the border of x is never written. */
  lemma {:induction false} KeepLeavesBorder(x: Field, b: Field, d: Dims, a: real, c: real, n: nat)
    requires Shaped(x, d) && Shaped(b, d) && c != 0.0
    ensures forall p, q :: OnBorder(d, p, q) ==> Iterate(x, b, d, a, c, n, Keep)[p][q] == x[p][q]
  {
    if n > 0 {
      KeepLeavesBorder(x, b, d, a, c, n - 1);
    }
  }

  /** After at least one sweep with a finishing `setBoundary`, the result
      satisfies that boundary condition. */
  lemma ImposedBoundaryHolds(x: Field, b: Field, d: Dims, a: real, c: real, n: nat, m: Boundary.Mode)
    requires Shaped(x, d) && Shaped(b, d) && c != 0.0
    ensures n >= 1 ==> Boundary.Holds(Iterate(x, b, d, a, c, n, Impose(m)), d, m)
  {
  }

  /** With a = 0 and c = 1 (the diffusion divisor 1 + 4a at a = 0), one sweep
      or more copies b's interior into x, whatever the initial guess. */
  lemma {:induction false} ZeroCoefficientCopies(x: Field, b: Field, d: Dims, a: real, n: nat, fin: Finish)
    requires Shaped(x, d) && Shaped(b, d)
    ensures a == 0.0 && n >= 1 ==> SameInterior(Iterate(x, b, d, a, 1.0 + 4.0 * a, n, fin), b, d)
  {
    if a == 0.0 && n >= 1 {
      ZeroCoefficientCopiesAtOne(x, b, d, n, fin);
      assert 1.0 + 4.0 * a == 1.0;
    }
  }

  /** The a = 0 case written with the literal divisor 1. */
  lemma ZeroCoefficientCopiesAtOne(x: Field, b: Field, d: Dims, n: nat, fin: Finish)
    requires Shaped(x, d) && Shaped(b, d) && n >= 1
    ensures SameInterior(Iterate(x, b, d, 0.0, 1.0, n, fin), b, d)
  {
    var prior := Iterate(x, b, d, 0.0, 1.0, n - 1, fin);
    var y := Sweep(prior, b, d, 0.0, 1.0);
    RowsDoneSolved(prior, b, d, 0.0, 1.0, d.nx);
    forall p, q | Interior(d, p, q)
      ensures y[p][q] == b[p][q]
    {
      assert CellSolved(prior, b, y, d, 0.0, 1.0, p, q);
    }
  }

  /** Relaxing the zero field against a zero right-hand side keeps it zero. */
  lemma {:induction false} ZeroStaysZero(x: Field, b: Field, d: Dims, a: real, c: real, n: nat, fin: Finish)
    requires Shaped(x, d) && Shaped(b, d) && c != 0.0
    requires IsZero(x, d) && IsZero(b, d)
    ensures IsZero(Iterate(x, b, d, a, c, n, fin), d)
  {
    if n > 0 {
      ZeroStaysZero(x, b, d, a, c, n - 1, fin);
      StepOfZero(x, b, d, a, c, n, fin);
    }
  }

  /** One more sweep (with its finishing pass) keeps a zero iterate zero. */
  lemma StepOfZero(x: Field, b: Field, d: Dims, a: real, c: real, n: nat, fin: Finish)
    requires Shaped(x, d) && Shaped(b, d) && c != 0.0 && n >= 1 && IsZero(b, d)
    requires IsZero(Iterate(x, b, d, a, c, n - 1, fin), d)
    ensures IsZero(Iterate(x, b, d, a, c, n, fin), d)
  {
    var prior := Iterate(x, b, d, a, c, n - 1, fin);
    var y := Sweep(prior, b, d, a, c);
    SweepOfZero(prior, b, d, a, c);
    match fin
    case Keep =>
    case Impose(m) => Boundary.ZeroInteriorGivesZero(y, d, m);
  }

  /** One sweep of the zero field against a zero right-hand side is zero. */
  lemma SweepOfZero(x: Field, b: Field, d: Dims, a: real, c: real)
    requires Shaped(x, d) && Shaped(b, d) && c != 0.0
    requires IsZero(x, d) && IsZero(b, d)
    ensures IsZero(Sweep(x, b, d, a, c), d)
  {
    var r := Sweep(x, b, d, a, c);
    SweepIsGaussSeidel(x, b, r, d, a, c);
    forall p, q | InRange(d, p, q)
      ensures r[p][q] == 0.0
    {
      if Interior(d, p, q) {
        SweepCellZero(x, b, r, d, a, c, p, q);
      } else {
        assert OnBorder(d, p, q);
      }
    }
  }

  lemma {:induction false} SweepCellZero(x: Field, b: Field, r: Field, d: Dims, a: real, c: real, p: int, q: int)
    requires Shaped(x, d) && Shaped(b, d) && c != 0.0
    requires IsZero(x, d) && IsZero(b, d)
    requires Shaped(r, d) && GaussSeidelStep(x, b, r, d, a, c) && Interior(d, p, q)
    ensures r[p][q] == 0.0
    decreases p, q
  {
    var west, south := r[p - 1][q], r[p][q - 1];
    if p > 1 {
      SweepCellZero(x, b, r, d, a, c, p - 1, q);
    } else {
      assert OnBorder(d, p - 1, q);
    }
    if q > 1 {
      SweepCellZero(x, b, r, d, a, c, p, q - 1);
    } else {
      assert OnBorder(d, p, q - 1);
    }
    assert west == 0.0 && south == 0.0;
    assert b[p][q] == 0.0 && x[p + 1][q] == 0.0 && x[p][q + 1] == 0.0;
    assert CellSolved(x, b, r, d, a, c, p, q);
    assert r[p][q] == Stencil(0.0, a, c, 0.0, 0.0, 0.0, 0.0);
  }
}
