/** Scalar fields on a rectangular grid with a one-cell border ring.

    The source stores every field as a 3-D nested array indexed [i][j][k]
    but only ever uses the slice k = 1; a field here is that slice, indexed
    [i][j] with 0 <= i <= nx + 1 and 0 <= j <= ny + 1. Rows 0 and nx + 1 and
    columns 0 and ny + 1 are the border ring. */
module Fields {
  import Utils

  /** A number of interior cells along one axis. */
  type Count = n: int | n >= 1 witness 1

  /** Interior resolution of a grid (N[X_DIM], N[Y_DIM] in the source). */
  datatype Dims = Dims(nx: Count, ny: Count)

  type Field = seq<seq<real>>

  /** The field has the (nx + 2) x (ny + 2) shape of the grid. */
  predicate Shaped(f: Field, d: Dims) {
    |f| == d.nx + 2 && forall i :: 0 <= i < |f| ==> |f[i]| == d.ny + 2
  }

  /** (i, j) indexes a cell of the grid, border included. */
  predicate InRange(d: Dims, i: int, j: int) {
    0 <= i <= d.nx + 1 && 0 <= j <= d.ny + 1
  }

  /** (i, j) indexes an interior (simulated) cell. */
  predicate Interior(d: Dims, i: int, j: int) {
    1 <= i <= d.nx && 1 <= j <= d.ny
  }

  /** (i, j) indexes a cell of the border ring. */
  predicate OnBorder(d: Dims, i: int, j: int) {
    InRange(d, i, j) && !Interior(d, i, j)
  }

  /** The field after the single assignment `f[i][j] = v`. */
  function Set(f: Field, i: int, j: int, v: real): (r: Field)
    requires 0 <= i < |f| && 0 <= j < |f[i]|
    ensures |r| == |f|
    ensures forall p :: 0 <= p < |f| ==> |r[p]| == |f[p]|
    ensures r[i][j] == v
    ensures forall p, q :: 0 <= p < |f| && 0 <= q < |f[p]| && (p != i || q != j) ==> r[p][q] == f[p][q]
  {
    f[i := f[i][j := v]]
  }

  /** The zero field the grid allocates for every buffer. */
  function Zero(d: Dims): (r: Field)
    ensures Shaped(r, d)
    ensures forall i, j :: InRange(d, i, j) ==> r[i][j] == 0.0
  {
    Utils.Zeros2d(d.nx + 2, d.ny + 2)
  }

  /** The field with every cell, border included, equal to v. */
  function Filled(d: Dims, v: real): (r: Field)
    ensures Shaped(r, d)
    ensures forall i, j :: InRange(d, i, j) ==> r[i][j] == v
  {
    seq(d.nx + 2, _ => seq(d.ny + 2, _ => v))
  }

  /** Every cell of f is 0. */
  ghost predicate IsZero(f: Field, d: Dims)
    requires Shaped(f, d)
  {
    forall i, j :: InRange(d, i, j) ==> f[i][j] == 0.0
  }

  /** f and g agree on every interior cell. */
  ghost predicate SameInterior(f: Field, g: Field, d: Dims)
    requires Shaped(f, d) && Shaped(g, d)
  {
    forall i, j :: Interior(d, i, j) ==> f[i][j] == g[i][j]
  }

  /** Two fields of the same shape that agree cell by cell are equal. */
  lemma Extensionality(f: Field, g: Field, d: Dims)
    requires Shaped(f, d) && Shaped(g, d)
    requires forall i, j :: InRange(d, i, j) ==> f[i][j] == g[i][j]
    ensures f == g
  {
    forall i | 0 <= i < |f|
      ensures f[i] == g[i]
    {
      assert forall j :: 0 <= j < |f[i]| ==> f[i][j] == g[i][j];
    }
  }
}
