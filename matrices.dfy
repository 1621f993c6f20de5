/** Dense real matrices as the solver uses them: row-major sequences of rows,
    read out of two-dimensional arrays, and the exact products that stand in for
    the linear-algebra library. */
module Matrices {

  type Matrix = seq<seq<real>>

  /** M has r rows of c entries each. */
  predicate IsMatrix(M: Matrix, r: nat, c: nat)
  {
    |M| == r && forall i :: 0 <= i < r ==> |M[i]| == c
  }

  /** M is square and equal to its transpose. */
  predicate IsSymmetric(M: Matrix)
  {
    IsMatrix(M, |M|, |M|) && forall i, j :: 0 <= i < |M| && 0 <= j < |M| ==> M[i][j] == M[j][i]
  }

  /** The contents of a two-dimensional array, row by row. */
  function Rows(A: array2<real>): (M: Matrix)
    reads A
    ensures IsMatrix(M, A.Length0, A.Length1)
    ensures forall i, j :: 0 <= i < A.Length0 && 0 <= j < A.Length1 ==> M[i][j] == A[i, j]
  {
    seq(A.Length0, i reads A requires 0 <= i < A.Length0 =>
      seq(A.Length1, j reads A requires 0 <= j < A.Length1 => A[i, j]))
  }

  /** Column j of M. */
  function Column(M: Matrix, j: nat): (col: seq<real>)
    requires forall i :: 0 <= i < |M| ==> j < |M[i]|
    ensures |col| == |M|
    ensures forall i :: 0 <= i < |M| ==> col[i] == M[i][j]
  {
    seq(|M|, i requires 0 <= i < |M| => M[i][j])
  }

  /** The transpose of an r-by-c matrix. */
  function Transpose(M: Matrix, r: nat, c: nat): (T: Matrix)
    requires IsMatrix(M, r, c)
    ensures IsMatrix(T, c, r)
    ensures forall i, j :: 0 <= i < c && 0 <= j < r ==> T[i][j] == M[j][i]
  {
    seq(c, i requires 0 <= i < c => seq(r, j requires 0 <= j < r => M[j][i]))
  }

  /** The sum of the products of corresponding entries. */
  function Dot(u: seq<real>, v: seq<real>): real
    requires |u| == |v|
    decreases |u|
  {
    if |u| == 0 then 0.0 else u[0] * v[0] + Dot(u[1..], v[1..])
  }

  /** The product of an r-by-k and a k-by-c matrix. */
  function MatMul(A: Matrix, B: Matrix, r: nat, k: nat, c: nat): (P: Matrix)
    requires IsMatrix(A, r, k) && IsMatrix(B, k, c)
    ensures IsMatrix(P, r, c)
    ensures forall i, j :: 0 <= i < r && 0 <= j < c ==> P[i][j] == Dot(A[i], Column(B, j))
  {
    seq(r, i requires 0 <= i < r => seq(c, j requires 0 <= j < c => Dot(A[i], Column(B, j))))
  }
}
