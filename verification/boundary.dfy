/** The boundary policy of simulator.js (`setBoundary`): rewrites the border
    ring of a field from its nearest interior cells. */
module Boundary {
  import opened Fields

  /** BOUNDARY_MIRROR, BOUNDARY_OPPOSE_X, BOUNDARY_OPPOSE_Y. */
  datatype Mode = Mirror | OpposeX | OpposeY

  /** The integer constant the source uses for each mode. */
  function Code(m: Mode): (c: int)
    ensures (c == 0 <==> m == Mirror) && (c == 1 <==> m == OpposeX) && (c == 2 <==> m == OpposeY)
  {
    match m
    case Mirror => 0
    case OpposeX => 1
    case OpposeY => 2
  }

  /** The mode `vStep` passes for velocity component `dim` (as `dim + 1`). */
  function ForAxis(dim: int): (m: Mode)
    requires 0 <= dim <= 1
    ensures Code(m) == dim + 1
  {
    if dim == 0 then OpposeX else OpposeY
  }

  /** Factor applied when copying onto the left and right edges. */
  function SignX(m: Mode): real {
    if m == OpposeX then -1.0 else 1.0
  }

  /** Factor applied when copying onto the top and bottom edges. */
  function SignY(m: Mode): real {
    if m == OpposeY then -1.0 else 1.0
  }

  /** The field after the left/right loop has handled rows j' = 1..j. */
  function LeftRight(f: Field, d: Dims, m: Mode, j: nat): (r: Field)
    requires Shaped(f, d) && j <= d.ny
    ensures Shaped(r, d)
    ensures forall q :: 1 <= q <= j ==> r[0][q] == SignX(m) * f[1][q] && r[d.nx + 1][q] == SignX(m) * f[d.nx][q]
    ensures forall p, q :: InRange(d, p, q) && !((p == 0 || p == d.nx + 1) && 1 <= q <= j) ==> r[p][q] == f[p][q]
  {
    if j == 0 then f
    else
      var s := LeftRight(f, d, m, j - 1);
      var s' := Set(s, 0, j, SignX(m) * s[1][j]);
      Set(s', d.nx + 1, j, SignX(m) * s'[d.nx][j])
  }

  /** The field after the top/bottom loop has handled columns i' = 1..i. */
  function TopBottom(f: Field, d: Dims, m: Mode, i: nat): (r: Field)
    requires Shaped(f, d) && i <= d.nx
    ensures Shaped(r, d)
    ensures forall p :: 1 <= p <= i ==> r[p][0] == SignY(m) * f[p][1] && r[p][d.ny + 1] == SignY(m) * f[p][d.ny]
    ensures forall p, q :: InRange(d, p, q) && !((q == 0 || q == d.ny + 1) && 1 <= p <= i) ==> r[p][q] == f[p][q]
  {
    if i == 0 then f
    else
      var s := TopBottom(f, d, m, i - 1);
      var s' := Set(s, i, 0, SignY(m) * s[i][1]);
      Set(s', i, d.ny + 1, SignY(m) * s'[i][d.ny])
  }

  /** The four corner assignments, in the source's order. Each corner reads
      only edge cells, which no corner assignment writes, so the order does
      not matter: every corner is the mean of f's two adjacent edge cells. */
  function Corners(f: Field, d: Dims): (r: Field)
    requires Shaped(f, d)
    ensures Shaped(r, d)
    ensures r[0][0] == 0.5 * (f[1][0] + f[0][1])
    ensures r[0][d.ny + 1] == 0.5 * (f[1][d.ny + 1] + f[0][d.ny])
    ensures r[d.nx + 1][0] == 0.5 * (f[d.nx][0] + f[d.nx + 1][1])
    ensures r[d.nx + 1][d.ny + 1] == 0.5 * (f[d.nx][d.ny + 1] + f[d.nx + 1][d.ny])
  {
    var ex, ey := d.nx + 1, d.ny + 1;
    var s1 := Set(f, 0, 0, 0.5 * (f[1][0] + f[0][1]));
    var s2 := Set(s1, 0, ey, 0.5 * (s1[1][ey] + s1[0][d.ny]));
    var s3 := Set(s2, ex, 0, 0.5 * (s2[d.nx][0] + s2[ex][1]));
    Set(s3, ex, ey, 0.5 * (s3[d.nx][ey] + s3[ex][d.ny]))
  }

  /** The corner assignments write the corners and nothing else. */
  lemma CornersFrame(f: Field, d: Dims)
    requires Shaped(f, d)
    ensures forall p, q :: InRange(d, p, q) && !IsCorner(d, p, q) ==> Corners(f, d)[p][q] == f[p][q]
  {
  }

  /** The boundary condition of mode m holds on f: every edge cell is its
      interior neighbour, negated on the left/right edges exactly when m is
      OpposeX and on the top/bottom edges exactly when m is OpposeY, and
      every corner is the mean of its two adjacent edge cells. */
  ghost predicate Holds(f: Field, d: Dims, m: Mode)
    requires Shaped(f, d)
  {
    var ex, ey := d.nx + 1, d.ny + 1;
    && (forall j :: 1 <= j <= d.ny ==> f[0][j] == SignX(m) * f[1][j] && f[ex][j] == SignX(m) * f[d.nx][j])
    && (forall i :: 1 <= i <= d.nx ==> f[i][0] == SignY(m) * f[i][1] && f[i][ey] == SignY(m) * f[i][d.ny])
    && f[0][0] == 0.5 * (f[1][0] + f[0][1])
    && f[0][ey] == 0.5 * (f[1][ey] + f[0][d.ny])
    && f[ex][0] == 0.5 * (f[d.nx][0] + f[ex][1])
    && f[ex][ey] == 0.5 * (f[d.nx][ey] + f[ex][d.ny])
  }

  /** `setBoundary(X, mode)`: the result keeps X's interior and satisfies the
      boundary condition of the mode; each edge cell is the (possibly negated)
      copy of X's nearest interior cell. */
  function SetBoundary(f: Field, d: Dims, m: Mode): (r: Field)
    requires Shaped(f, d)
    ensures Shaped(r, d)
    ensures SameInterior(r, f, d)
    ensures Holds(r, d, m)
    ensures forall j :: 1 <= j <= d.ny ==>
      r[0][j] == SignX(m) * f[1][j] && r[d.nx + 1][j] == SignX(m) * f[d.nx][j]
    ensures forall i :: 1 <= i <= d.nx ==>
      r[i][0] == SignY(m) * f[i][1] && r[i][d.ny + 1] == SignY(m) * f[i][d.ny]
  {
    var u := LeftRight(f, d, m, d.ny);
    var t := TopBottom(u, d, m, d.nx);
    EdgePasses(f, u, t, d, m);
    CornersComplete(f, t, d, m);
    Corners(t, d)
  }

  /** Once the edge loops have produced t from f, the corner assignments
      complete the boundary condition without disturbing the interior or
      the edges. */
  lemma CornersComplete(f: Field, t: Field, d: Dims, m: Mode)
    requires Shaped(f, d) && Shaped(t, d) && SameInterior(t, f, d)
    requires forall j :: 1 <= j <= d.ny ==> t[0][j] == SignX(m) * f[1][j] && t[d.nx + 1][j] == SignX(m) * f[d.nx][j]
    requires forall i :: 1 <= i <= d.nx ==> t[i][0] == SignY(m) * f[i][1] && t[i][d.ny + 1] == SignY(m) * f[i][d.ny]
    ensures SameInterior(Corners(t, d), f, d)
    ensures Holds(Corners(t, d), d, m)
    ensures forall j :: 1 <= j <= d.ny ==>
      Corners(t, d)[0][j] == SignX(m) * f[1][j] && Corners(t, d)[d.nx + 1][j] == SignX(m) * f[d.nx][j]
    ensures forall i :: 1 <= i <= d.nx ==>
      Corners(t, d)[i][0] == SignY(m) * f[i][1] && Corners(t, d)[i][d.ny + 1] == SignY(m) * f[i][d.ny]
  {
    CornersFrame(t, d);
  }

  /** The two edge loops of `setBoundary` produce t from f: the interior
      is kept and every edge cell off the corners is its (possibly negated)
      interior neighbour. */
  lemma EdgePasses(f: Field, u: Field, t: Field, d: Dims, m: Mode)
    requires Shaped(f, d) && u == LeftRight(f, d, m, d.ny) && t == TopBottom(u, d, m, d.nx)
    ensures SameInterior(t, f, d)
    ensures forall j :: 1 <= j <= d.ny ==> t[0][j] == SignX(m) * f[1][j] && t[d.nx + 1][j] == SignX(m) * f[d.nx][j]
    ensures forall i :: 1 <= i <= d.nx ==> t[i][0] == SignY(m) * f[i][1] && t[i][d.ny + 1] == SignY(m) * f[i][d.ny]
  {
    forall j | 1 <= j <= d.ny
      ensures t[0][j] == SignX(m) * f[1][j] && t[d.nx + 1][j] == SignX(m) * f[d.nx][j]
    {
      assert t[0][j] == u[0][j] && t[d.nx + 1][j] == u[d.nx + 1][j];
    }
    forall i | 1 <= i <= d.nx
      ensures t[i][0] == SignY(m) * f[i][1] && t[i][d.ny + 1] == SignY(m) * f[i][d.ny]
    {
      assert u[i][1] == f[i][1] && u[i][d.ny] == f[i][d.ny];
    }
  }

  /** Only the border ring is written: two fields with the same interior get
      the same result, whatever their borders held. */
  lemma DependsOnlyOnInterior(f: Field, g: Field, d: Dims, m: Mode)
    requires Shaped(f, d) && Shaped(g, d)
    requires SameInterior(f, g, d)
    ensures SetBoundary(f, d, m) == SetBoundary(g, d, m)
  {
    var rf, rg := SetBoundary(f, d, m), SetBoundary(g, d, m);
    EdgesFromInterior(f, g, rf, rg, d, m);
    CornersFromEdges(rf, rg, d, m);
  }

  /** The non-corner cells of `setBoundary`'s result depend only on the
      interior of its argument. */
  lemma EdgesFromInterior(f: Field, g: Field, rf: Field, rg: Field, d: Dims, m: Mode)
    requires Shaped(f, d) && Shaped(g, d) && SameInterior(f, g, d)
    requires rf == SetBoundary(f, d, m) && rg == SetBoundary(g, d, m)
    ensures forall i, j :: InRange(d, i, j) && !IsCorner(d, i, j) ==> rf[i][j] == rg[i][j]
  {
    forall i, j | InRange(d, i, j) && !IsCorner(d, i, j)
      ensures rf[i][j] == rg[i][j]
    {
      if Interior(d, i, j) {
        assert rf[i][j] == f[i][j] && rg[i][j] == g[i][j];
      } else if 1 <= j <= d.ny {
        assert f[1][j] == g[1][j] && f[d.nx][j] == g[d.nx][j];
      } else {
        assert f[i][1] == g[i][1] && f[i][d.ny] == g[i][d.ny];
      }
    }
  }

  /** (i, j) is one of the four corner cells. */
  predicate IsCorner(d: Dims, i: int, j: int) {
    (i == 0 || i == d.nx + 1) && (j == 0 || j == d.ny + 1)
  }

  /** Two fields satisfying the same boundary condition that agree off the
      corners agree everywhere. */
  lemma CornersFromEdges(f: Field, g: Field, d: Dims, m: Mode)
    requires Shaped(f, d) && Shaped(g, d)
    requires Holds(f, d, m) && Holds(g, d, m)
    requires forall i, j :: InRange(d, i, j) && !IsCorner(d, i, j) ==> f[i][j] == g[i][j]
    ensures f == g
  {
    var ex, ey := d.nx + 1, d.ny + 1;
    assert f[1][0] == g[1][0] && f[0][1] == g[0][1];
    assert f[1][ey] == g[1][ey] && f[0][d.ny] == g[0][d.ny];
    assert f[d.nx][0] == g[d.nx][0] && f[ex][1] == g[ex][1];
    assert f[d.nx][ey] == g[d.nx][ey] && f[ex][d.ny] == g[ex][d.ny];
    Extensionality(f, g, d);
  }

  /** A field is left unchanged by `setBoundary` exactly when it already
      satisfies the mode's boundary condition. */
  lemma FixedPointIffHolds(f: Field, d: Dims, m: Mode)
    requires Shaped(f, d)
    ensures SetBoundary(f, d, m) == f <==> Holds(f, d, m)
  {
    var r := SetBoundary(f, d, m);
    if Holds(f, d, m) {
      forall i, j | InRange(d, i, j) && !IsCorner(d, i, j)
        ensures r[i][j] == f[i][j]
      {
        if Interior(d, i, j) {
        } else if 1 <= j <= d.ny {
        } else {
        }
      }
      CornersFromEdges(r, f, d, m);
    }
  }

  /** Applying `setBoundary` twice gives the same field as applying it once. */
  lemma Idempotent(f: Field, d: Dims, m: Mode)
    requires Shaped(f, d)
    ensures SetBoundary(SetBoundary(f, d, m), d, m) == SetBoundary(f, d, m)
  {
    FixedPointIffHolds(SetBoundary(f, d, m), d, m);
  }

  /** A field whose interior is all zero comes out of `setBoundary` all zero,
      in every mode. */
  lemma ZeroInteriorGivesZero(f: Field, d: Dims, m: Mode)
    requires Shaped(f, d)
    requires forall i, j :: Interior(d, i, j) ==> f[i][j] == 0.0
    ensures IsZero(SetBoundary(f, d, m), d)
  {
    var r := SetBoundary(f, d, m);
    forall i, j | InRange(d, i, j) && !IsCorner(d, i, j)
      ensures r[i][j] == 0.0
    {
      if Interior(d, i, j) {
      } else if 1 <= j <= d.ny {
        assert f[1][j] == 0.0 && f[d.nx][j] == 0.0;
      } else {
        assert f[i][1] == 0.0 && f[i][d.ny] == 0.0;
      }
    }
    assert r[1][0] == 0.0 && r[0][1] == 0.0;
    assert r[1][d.ny + 1] == 0.0 && r[0][d.ny] == 0.0;
    assert r[d.nx][0] == 0.0 && r[d.nx + 1][1] == 0.0;
    assert r[d.nx][d.ny + 1] == 0.0 && r[d.nx + 1][d.ny] == 0.0;
  }
}
