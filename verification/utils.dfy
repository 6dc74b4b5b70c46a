/** Zero-filled allocators of utils.js.

    The value-level functions build nested sequences the way the source builds
    nested arrays (one `push` per row); the methods build real arrays and show
    that every row is a distinct allocation, so no two rows alias. */
module Utils {

  /** `zeros(n)`: n entries, all 0. */
  function Zeros(n: nat): (r: seq<real>)
    ensures |r| == n
    ensures forall i :: 0 <= i < n ==> r[i] == 0.0
  {
    if n == 0 then [] else Zeros(n - 1) + [0.0]
  }

  /** `zeros2d(n, m)`: n rows, each `zeros(m)`, pushed one after another. */
  function Zeros2d(n: nat, m: nat): (r: seq<seq<real>>)
    ensures |r| == n
    ensures forall i :: 0 <= i < n ==> |r[i]| == m
    ensures forall i, j :: 0 <= i < n && 0 <= j < m ==> r[i][j] == 0.0
  {
    if n == 0 then [] else Zeros2d(n - 1, m) + [Zeros(m)]
  }

  /** `zeros3d(n, m, l)`: n planes, each `zeros2d(m, l)`. */
  function Zeros3d(n: nat, m: nat, l: nat): (r: seq<seq<seq<real>>>)
    ensures |r| == n
    ensures forall i :: 0 <= i < n ==> |r[i]| == m
    ensures forall i, j :: 0 <= i < n && 0 <= j < m ==> |r[i][j]| == l
    ensures forall i, j, k :: 0 <= i < n && 0 <= j < m && 0 <= k < l ==> r[i][j][k] == 0.0
  {
    if n == 0 then [] else Zeros3d(n - 1, m, l) + [Zeros2d(m, l)]
  }

  /** `zeros4d(n, m, l, k)`: n blocks, each `zeros3d(m, l, k)`. */
  function Zeros4d(n: nat, m: nat, l: nat, k: nat): (r: seq<seq<seq<seq<real>>>>)
    ensures |r| == n
    ensures forall a :: 0 <= a < n ==> |r[a]| == m
    ensures forall a, b :: 0 <= a < n && 0 <= b < m ==> |r[a][b]| == l
    ensures forall a, b, c :: 0 <= a < n && 0 <= b < m && 0 <= c < l ==> |r[a][b][c]| == k
    ensures forall a, b, c, e :: 0 <= a < n && 0 <= b < m && 0 <= c < l && 0 <= e < k ==>
      r[a][b][c][e] == 0.0
  {
    if n == 0 then [] else Zeros4d(n - 1, m, l, k) + [Zeros3d(m, l, k)]
  }

  /** `zeros(n)` as an allocation. */
  method NewZeros(n: nat) returns (a: array<real>)
    ensures fresh(a)
    ensures a.Length == n
    ensures forall i :: 0 <= i < n ==> a[i] == 0.0
  {
    a := new real[n];
    var i := 0;
    while i < n
      invariant 0 <= i <= n
      invariant forall p :: 0 <= p < i ==> a[p] == 0.0
    {
      a[i] := 0.0;
      i := i + 1;
    }
  }

  /** `zeros2d(n, m)` as an allocation: each row is allocated by its own call
      to `zeros`, so the rows are pairwise distinct arrays. */
  method NewZeros2d(n: nat, m: nat) returns (rows: seq<array<real>>)
    ensures |rows| == n
    ensures forall i :: 0 <= i < n ==> fresh(rows[i]) && rows[i].Length == m
    ensures forall i, j :: 0 <= i < n && 0 <= j < m ==> rows[i][j] == 0.0
    ensures forall i, i' :: 0 <= i < i' < n ==> rows[i] != rows[i']
  {
    rows := [];
    var i := 0;
    while i < n
      invariant 0 <= i <= n
      invariant |rows| == i
      invariant forall p :: 0 <= p < i ==> fresh(rows[p]) && rows[p].Length == m
      invariant forall p, j :: 0 <= p < i && 0 <= j < m ==> rows[p][j] == 0.0
      invariant forall p, p' :: 0 <= p < p' < i ==> rows[p] != rows[p']
    {
      var row := NewZeros(m);
      rows := rows + [row];
      i := i + 1;
    }
  }
}
