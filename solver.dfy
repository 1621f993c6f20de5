/** The variational solver: a basis set of at most N Hermite functions, the overlap
    and Hamiltonian matrices over it, canonical orthogonalization that drops the
    overlap eigenvectors below a threshold, and the reduced eigenproblem whose
    eigenvalues are the energies and whose eigenvectors give the wavefunctions. */
module Solvers {
  import opened Errors
  import opened HermiteBasis
  import opened Matrices

  /** The two integrals over a pair of basis functions, as the adaptive quadrature
      returns them: the overlap and the Hamiltonian matrix element. */
  datatype Quadrature = Quadrature(
    overlap: (Hermite, Hermite) -> real,
    hamiltonian: (Hermite, Hermite) -> real)

  /** What the symmetric eigensolver returns: eigenvalues and eigenvectors as columns. */
  datatype Eigen = Eigen(values: seq<real>, vectors: Matrix)

  predicate Ascending(s: seq<real>)
  {
    forall i, j :: 0 <= i <= j < |s| ==> s[i] <= s[j]
  }

  /** The symmetric eigensolver returns one eigenvalue per row, in ascending order,
      and a square matrix of eigenvectors. */
  ghost predicate EigenOracle(eig: Matrix -> Eigen)
  {
    forall M :: IsSymmetric(M) ==>
      |eig(M).values| == |M| && IsMatrix(eig(M).vectors, |M|, |M|) && Ascending(eig(M).values)
  }

  // ---------------------------------------------------------------------------
  // Symmetrization

  /** Every off-diagonal pair replaced by its mean, the diagonal kept. */
  function Averaged(M: Matrix): (A: Matrix)
    requires IsMatrix(M, |M|, |M|)
    ensures IsSymmetric(A) && |A| == |M|
    ensures forall i :: 0 <= i < |M| ==> A[i][i] == M[i][i]
    ensures forall i, j :: 0 <= i < |M| && 0 <= j < |M| ==> A[i][j] + A[j][i] == M[i][j] + M[j][i]
  {
    seq(|M|, i requires 0 <= i < |M| =>
      seq(|M|, j requires 0 <= j < |M| => if i == j then M[i][i] else 0.5 * (M[i][j] + M[j][i])))
  }

  /** Cell (i, j) lies in a row pair the sweep over rows and columns below the
      diagonal has already visited when it stands at (row, col). */
  predicate Visited(i: int, j: int, row: int, col: int)
  {
    var hi, lo := if i < j then j else i, if i < j then i else j;
    hi < row || (hi == row && lo < col)
  }

  /** The state of a sweep at (row, col): visited pairs hold their mean. */
  ghost predicate SweptUpTo(M: array2<real>, M0: Matrix, row: int, col: int)
    reads M
    requires M.Length0 == M.Length1 && IsMatrix(M0, M.Length0, M.Length0)
  {
    forall i, j :: 0 <= i < M.Length0 && 0 <= j < M.Length0 ==>
      M[i, j] == if i != j && Visited(i, j, row, col) then 0.5 * (M0[i][j] + M0[j][i]) else M0[i][j]
  }

  /** One step of a sweep: the pair (row, col), (col, row) takes its mean. */
  method AveragePair(M: array2<real>, ghost M0: Matrix, row: nat, col: nat)
    requires M.Length0 == M.Length1 && IsMatrix(M0, M.Length0, M.Length0)
    requires col <= row < M.Length0
    requires SweptUpTo(M, M0, row, col)
    modifies M
    ensures SweptUpTo(M, M0, row, col + 1)
  {
    var average := 0.5 * (M[row, col] + M[col, row]);
    M[row, col] := average;
    M[col, row] := average;
    forall i, j | 0 <= i < M.Length0 && 0 <= j < M.Length0
      ensures M[i, j] == if i != j && Visited(i, j, row, col + 1) then 0.5 * (M0[i][j] + M0[j][i]) else M0[i][j]
    {
      if !((i == row && j == col) || (i == col && j == row)) {
        assert M[i, j] == old(M[i, j]);
      }
    }
  }

  /** The first symmetrization loop of solve: each pair below the diagonal of S
      and of H becomes its mean, mirrored above. */
  method SymmetrizePair(S: array2<real>, H: array2<real>)
    requires S.Length0 == S.Length1 == H.Length0 == H.Length1 && S != H
    modifies S, H
    ensures forall i, j :: 0 <= i < S.Length0 && 0 <= j < S.Length0 ==>
      S[i, j] == Averaged(old(Rows(S)))[i][j] && H[i, j] == Averaged(old(Rows(H)))[i][j]
  {
    var n := S.Length0;
    ghost var S0, H0 := Rows(S), Rows(H);
    var row := 0;
    while row < n
      invariant 0 <= row <= n
      invariant SweptUpTo(S, S0, row, 0) && SweptUpTo(H, H0, row, 0)
    {
      var col := 0;
      while col < row
        invariant 0 <= col <= row
        invariant SweptUpTo(S, S0, row, col) && SweptUpTo(H, H0, row, col)
      {
        AveragePair(S, S0, row, col);
        AveragePair(H, H0, row, col);
        col := col + 1;
      }
      assert SweptUpTo(S, S0, row + 1, 0) && SweptUpTo(H, H0, row + 1, 0);
      row := row + 1;
    }
  }

  /** The symmetrization of the reduced Hamiltonian: the same sweep, with the
      diagonal visited as well, which leaves it as it was. */
  method SymmetrizeReduced(M: array2<real>)
    requires M.Length0 == M.Length1
    modifies M
    ensures forall i, j :: 0 <= i < M.Length0 && 0 <= j < M.Length0 ==> M[i, j] == Averaged(old(Rows(M)))[i][j]
  {
    var n := M.Length0;
    ghost var M0 := Rows(M);
    var row := 0;
    while row < n
      invariant 0 <= row <= n
      invariant SweptUpTo(M, M0, row, 0)
    {
      var col := 0;
      while col <= row
        invariant 0 <= col <= row + 1
        invariant SweptUpTo(M, M0, row, col)
      {
        AveragePair(M, M0, row, col);
        col := col + 1;
      }
      assert SweptUpTo(M, M0, row + 1, 0);
      row := row + 1;
    }
  }

  // ---------------------------------------------------------------------------
  // Canonical orthogonalization cut

  /** The number of eigenvalues at or above the threshold. */
  function CountAtLeast(s: seq<real>, threshold: real): (c: nat)
    ensures c <= |s|
    decreases |s|
  {
    if |s| == 0 then 0 else (if s[0] >= threshold then 1 else 0) + CountAtLeast(s[1..], threshold)
  }

  /** The dimension kept by the cut: the eigenvalues at or above the threshold, but
      never fewer than one. */
  function ReducedDimension(s: seq<real>, threshold: real): (m: nat)
    requires |s| >= 1
    ensures 1 <= m <= |s|
  {
    var c := CountAtLeast(s, threshold);
    if c == 0 then 1 else c
  }

  /** The decrementing scan for stop_index: walk down from the top eigenvalue while
      the one below is at or above the threshold. */
  method CutScan(sEval: seq<real>, threshold: real) returns (stop: int)
    ensures |sEval| == 0 ==> stop == -1
    ensures |sEval| > 0 ==> 0 <= stop <= |sEval| - 1
    ensures forall k :: 0 <= stop <= k <= |sEval| - 2 ==> sEval[k] >= threshold
    ensures 0 < stop ==> sEval[stop - 1] < threshold
  {
    stop := |sEval| - 1;
    while stop > 0
      invariant |sEval| == 0 ==> stop == -1
      invariant |sEval| > 0 ==> 0 <= stop <= |sEval| - 1
      invariant forall k :: 0 <= stop <= k <= |sEval| - 2 ==> sEval[k] >= threshold
    {
      if sEval[stop - 1] < threshold {
        break;
      }
      stop := stop - 1;
    }
  }

  /** In an ascending sequence whose entries from m on are at or above the threshold
      and whose entries before m are below it, the count is |s| - m. */
  lemma {:induction false} CountOfSuffix(s: seq<real>, threshold: real, m: nat)
    requires m <= |s|
    requires forall k :: m <= k < |s| ==> s[k] >= threshold
    requires forall k :: 0 <= k < m ==> s[k] < threshold
    ensures CountAtLeast(s, threshold) == |s| - m
    decreases |s|
  {
    if |s| > 0 {
      if m == 0 {
        CountOfSuffix(s[1..], threshold, 0);
      } else {
        CountOfSuffix(s[1..], threshold, m - 1);
      }
    }
  }

  /** With ascending eigenvalues, the scan keeps exactly ReducedDimension of them:
      the ones at or above the threshold, or the top one when none is. */
  lemma CutIsReducedDimension(sEval: seq<real>, threshold: real, stop: int)
    requires |sEval| >= 1 && Ascending(sEval)
    requires 0 <= stop <= |sEval| - 1
    requires forall k :: stop <= k <= |sEval| - 2 ==> sEval[k] >= threshold
    requires 0 < stop ==> sEval[stop - 1] < threshold
    ensures |sEval| - stop == ReducedDimension(sEval, threshold)
  {
    var n := |sEval|;
    if sEval[n - 1] >= threshold {
      CountOfSuffix(sEval, threshold, stop);
    } else {
      if n >= 2 {
        assert sEval[n - 2] <= sEval[n - 1] < threshold;
      }
      CountOfSuffix(sEval, threshold, n);
    }
  }

  /** A higher threshold never keeps more eigenvalues. */
  lemma {:induction false} CountAtLeastAntitone(s: seq<real>, t1: real, t2: real)
    requires t1 <= t2
    ensures CountAtLeast(s, t2) <= CountAtLeast(s, t1)
    decreases |s|
  {
    if |s| > 0 {
      CountAtLeastAntitone(s[1..], t1, t2);
    }
  }

  /** The reduced dimension does not grow as the threshold grows. */
  lemma ReducedDimensionAntitone(s: seq<real>, t1: real, t2: real)
    requires |s| >= 1 && t1 <= t2
    ensures ReducedDimension(s, t2) <= ReducedDimension(s, t1)
  {
    CountAtLeastAntitone(s, t1, t2);
  }

  /** The Q_red loop: column col is column stop + col of Q, scaled by the reciprocal
      square root of its eigenvalue. */
  method ReducedTransform(Q: Matrix, sEval: seq<real>, stop: nat, m: nat, num: Numerics) returns (Qred: array2<real>)
    requires IsMatrix(Q, |Q|, |Q|) && |sEval| == |Q| && stop + m <= |Q|
    ensures fresh(Qred) && Qred.Length0 == |Q| && Qred.Length1 == m
    ensures forall row, col :: 0 <= row < |Q| && 0 <= col < m ==>
      Qred[row, col] == Q[row][stop + col] * num.invSqrt(sEval[stop + col])
    ensures Rows(Qred) == ScaledColumns(Q, sEval, stop, m, num)
  {
    var n := |Q|;
    Qred := new real[n, m]((i, j) => 0.0);
    var col := 0;
    while col < m
      invariant 0 <= col <= m
      invariant forall r, c :: 0 <= r < n && 0 <= c < col ==> Qred[r, c] == Q[r][stop + c] * num.invSqrt(sEval[stop + c])
    {
      var factor := num.invSqrt(sEval[stop + col]);
      var row := 0;
      while row < n
        invariant 0 <= row <= n
        invariant forall r, c :: 0 <= r < n && 0 <= c < col ==> Qred[r, c] == Q[r][stop + c] * num.invSqrt(sEval[stop + c])
        invariant forall r :: 0 <= r < row ==> Qred[r, col] == Q[r][stop + col] * factor
      {
        Qred[row, col] := Q[row][stop + col] * factor;
        row := row + 1;
      }
      col := col + 1;
    }
    RowsAre(Qred, ScaledColumns(Q, sEval, stop, m, num));
  }

  /** A fresh array holding the r-by-c matrix M. */
  method FromRows(M: Matrix, r: nat, c: nat) returns (A: array2<real>)
    requires IsMatrix(M, r, c)
    ensures fresh(A) && A.Length0 == r && A.Length1 == c
    ensures Rows(A) == M
  {
    A := new real[r, c]((i, j) requires 0 <= i < r && 0 <= j < c => M[i][j]);
    assert forall i :: 0 <= i < r ==> Rows(A)[i] == M[i];
  }

  /** The kept overlap eigenvectors of canonical orthogonalization: the columns of
      the top ReducedDimension eigenvectors of S, each scaled by the reciprocal
      square root of its eigenvalue. */
  function KeptBasis(S: Matrix, threshold: real, eig: Matrix -> Eigen, num: Numerics): (Qr: Matrix)
    requires |S| >= 1 && IsSymmetric(S) && EigenOracle(eig)
    ensures IsMatrix(Qr, |S|, ReducedDimension(eig(S).values, threshold))
  {
    var m := ReducedDimension(eig(S).values, threshold);
    ScaledColumns(eig(S).vectors, eig(S).values, |S| - m, m, num)
  }

  /** Columns stop .. stop + m - 1 of Q, each scaled by the reciprocal square root
      of its eigenvalue. */
  function ScaledColumns(Q: Matrix, sEval: seq<real>, stop: nat, m: nat, num: Numerics): (Qr: Matrix)
    requires IsMatrix(Q, |Q|, |Q|) && |sEval| == |Q| && stop + m <= |Q|
    ensures IsMatrix(Qr, |Q|, m)
    ensures forall row, col :: 0 <= row < |Q| && 0 <= col < m ==>
      Qr[row][col] == Q[row][stop + col] * num.invSqrt(sEval[stop + col])
  {
    seq(|Q|, row requires 0 <= row < |Q| =>
      seq(m, col requires 0 <= col < m => Q[row][stop + col] * num.invSqrt(sEval[stop + col])))
  }

  /** The reduced Hamiltonian: H in the kept basis, Q_red^T * H * Q_red, with every
      off-diagonal pair replaced by its mean. */
  function ReducedHamiltonian(S: Matrix, H: Matrix, threshold: real, eig: Matrix -> Eigen, num: Numerics): (R: Matrix)
    requires |S| >= 1 && IsSymmetric(S) && IsMatrix(H, |S|, |S|) && EigenOracle(eig)
    ensures IsSymmetric(R) && |R| == ReducedDimension(eig(S).values, threshold)
  {
    var Qr := KeptBasis(S, threshold, eig, num);
    var n, m := |S|, ReducedDimension(eig(S).values, threshold);
    Averaged(MatMul(MatMul(Transpose(Qr, n, m), H, m, n, n), Qr, m, n, m))
  }

  /** An array whose cells match M holds M. */
  lemma RowsAre(A: array2<real>, M: Matrix)
    requires IsMatrix(M, A.Length0, A.Length1)
    requires forall i, j :: 0 <= i < A.Length0 && 0 <= j < A.Length1 ==> A[i, j] == M[i][j]
    ensures Rows(A) == M
  {
    SameRows(Rows(A), M);
  }

  /** The matrix of f over all pairs of basis functions. */
  function Gram(basis: seq<Hermite>, f: (Hermite, Hermite) -> real): (G: Matrix)
    ensures IsMatrix(G, |basis|, |basis|)
    ensures forall i, j :: 0 <= i < |basis| && 0 <= j < |basis| ==> G[i][j] == f(basis[i], basis[j])
  {
    seq(|basis|, i requires 0 <= i < |basis| => seq(|basis|, j requires 0 <= j < |basis| => f(basis[i], basis[j])))
  }

  /** Two r-by-c matrices with the same entries are equal. */
  lemma SameRows(A: Matrix, B: Matrix)
    requires |A| == |B| && forall i :: 0 <= i < |A| ==> |A[i]| == |B[i]|
    requires forall i, j :: 0 <= i < |A| && 0 <= j < |A[i]| ==> A[i][j] == B[i][j]
    ensures A == B
  {
    assert forall i :: 0 <= i < |A| ==> A[i] == B[i];
  }

  /** The assembly loop of solve: each cell holds the integrals over its pair. */
  method FillMatrices(S: array2<real>, H: array2<real>, basis: seq<Hermite>, quad: Quadrature)
    requires S.Length0 == S.Length1 == H.Length0 == H.Length1 == |basis| && S != H
    modifies S, H
    ensures forall i, j :: 0 <= i < |basis| && 0 <= j < |basis| ==>
      S[i, j] == quad.overlap(basis[i], basis[j]) && H[i, j] == quad.hamiltonian(basis[i], basis[j])
  {
    var n := |basis|;
    var row := 0;
    while row < n
      invariant 0 <= row <= n
      invariant forall i, j :: 0 <= i < row && 0 <= j < n ==>
        S[i, j] == quad.overlap(basis[i], basis[j]) && H[i, j] == quad.hamiltonian(basis[i], basis[j])
    {
      var col := 0;
      while col < n
        invariant 0 <= col <= n
        invariant forall i, j :: 0 <= i < row && 0 <= j < n ==>
          S[i, j] == quad.overlap(basis[i], basis[j]) && H[i, j] == quad.hamiltonian(basis[i], basis[j])
        invariant forall j :: 0 <= j < col ==>
          S[row, j] == quad.overlap(basis[row], basis[j]) && H[row, j] == quad.hamiltonian(basis[row], basis[j])
      {
        S[row, col] := quad.overlap(basis[row], basis[col]);
        H[row, col] := quad.hamiltonian(basis[row], basis[col]);
        col := col + 1;
      }
      row := row + 1;
    }
  }

  /** The cut and the Q_red loop of solve: the scan for stop_index over the
      overlap eigenvalues, then the kept eigenvectors rescaled into a fresh array. */
  method KeepBasis(S: Matrix, threshold: real, eig: Matrix -> Eigen, num: Numerics)
    returns (nRed: nat, Qred: array2<real>)
    requires |S| >= 1 && IsSymmetric(S) && EigenOracle(eig)
    ensures nRed == ReducedDimension(eig(S).values, threshold)
    ensures fresh(Qred) && Rows(Qred) == KeptBasis(S, threshold, eig, num)
  {
    var n := |S|;
    var sEval, Q := eig(S).values, eig(S).vectors;
    var stop := CutScan(sEval, threshold);
    CutIsReducedDimension(sEval, threshold, stop);
    nRed := n - stop;
    Qred := ReducedTransform(Q, sEval, stop, nRed, num);
  }

  /** H_red = Q_red^T * H * Q_red in a fresh array, then symmetrized in place. */
  method TransformHamiltonian(Qr: Matrix, H: Matrix, n: nat, m: nat) returns (Hred: array2<real>)
    requires IsMatrix(Qr, n, m) && IsMatrix(H, n, n)
    ensures fresh(Hred) && Rows(Hred) == Averaged(MatMul(MatMul(Transpose(Qr, n, m), H, m, n, n), Qr, m, n, m))
  {
    var product := MatMul(Transpose(Qr, n, m), H, m, n, n);
    Hred := FromRows(MatMul(product, Qr, m, n, m), m, m);
    SymmetrizeReduced(Hred);
    SameRows(Rows(Hred), Averaged(MatMul(product, Qr, m, n, m)));
  }

  /** The second half of solve, from the symmetric S and H: the overlap
      eigenvalues cut at the threshold, the Hamiltonian transformed by the kept
      overlap eigenvectors scaled by 1/sqrt of their eigenvalues, symmetrized and
      diagonalized; the coefficients are the eigenvectors taken back to the basis. */
  method Reduce(S: Matrix, H: Matrix, threshold: real, eig: Matrix -> Eigen, num: Numerics)
    returns (nRed: nat, E: seq<real>, C: Matrix)
    requires |S| >= 1 && IsSymmetric(S) && IsMatrix(H, |S|, |S|) && EigenOracle(eig)
    ensures nRed == ReducedDimension(eig(S).values, threshold)
    ensures 1 <= nRed <= |S| && |E| == nRed && Ascending(E) && IsMatrix(C, |S|, nRed)
    ensures E == eig(ReducedHamiltonian(S, H, threshold, eig, num)).values
    ensures C == MatMul(KeptBasis(S, threshold, eig, num), eig(ReducedHamiltonian(S, H, threshold, eig, num)).vectors, |S|, nRed, nRed)
  {
    var n := |S|;
    var Qred;
    nRed, Qred := KeepBasis(S, threshold, eig, num);
    var Q' := Rows(Qred);
    var Hred := TransformHamiltonian(Q', H, n, nRed);
    var R := Rows(Hred);
    assert R == ReducedHamiltonian(S, H, threshold, eig, num);
    var reducedEigen := eig(R);
    E := reducedEigen.values;
    C := MatMul(Q', reducedEigen.vectors, n, nRed, nRed);
  }

  /** S and H hold the symmetrized overlap and Hamiltonian matrices of the basis. */
  ghost predicate Assembled(S: array2<real>, H: array2<real>, basis: seq<Hermite>, quad: Quadrature)
    reads S, H
  {
    Rows(S) == Averaged(Gram(basis, quad.overlap)) && Rows(H) == Averaged(Gram(basis, quad.hamiltonian))
  }

  /** The first half of solve: S and H filled from the quadrature, then each
      off-diagonal pair replaced by its mean. */
  method Assemble(S: array2<real>, H: array2<real>, basis: seq<Hermite>, quad: Quadrature)
    requires S.Length0 == S.Length1 == H.Length0 == H.Length1 == |basis| && S != H
    modifies S, H
    ensures Assembled(S, H, basis, quad)
  {
    FillMatrices(S, H, basis, quad);
    SameRows(Rows(S), Gram(basis, quad.overlap));
    SameRows(Rows(H), Gram(basis, quad.hamiltonian));
    SymmetrizePair(S, H);
    SameRows(Rows(S), Averaged(Gram(basis, quad.overlap)));
    SameRows(Rows(H), Averaged(Gram(basis, quad.hamiltonian)));
  }

  // ---------------------------------------------------------------------------
  // Wavefunctions

  predicate AllInitialized(basis: seq<Hermite>)
  {
    forall k :: 0 <= k < |basis| ==> basis[k].Hermite?
  }

  /** The sum of coeffs[k] * f_k(x) over the basis, accumulated from the first term. */
  function Combination(coeffs: seq<real>, basis: seq<Hermite>, x: real, num: Numerics): real
    requires |coeffs| == |basis| && AllInitialized(basis)
    decreases |basis|
  {
    if |basis| == 0 then 0.0
    else
      var n := |basis| - 1;
      Combination(coeffs[..n], basis[..n], x, num) + coeffs[n] * F(basis[n], x, num).value
  }

  /** The basis functions' values at x. */
  function Values(basis: seq<Hermite>, x: real, num: Numerics): (v: seq<real>)
    requires AllInitialized(basis)
    ensures |v| == |basis|
    ensures forall k :: 0 <= k < |basis| ==> F(basis[k], x, num) == Ok(v[k])
  {
    seq(|basis|, k requires 0 <= k < |basis| => F(basis[k], x, num).value)
  }

  /** A dot product grows by the product of the appended entries. */
  lemma {:induction false} DotAppend(u: seq<real>, v: seq<real>, a: real, b: real)
    requires |u| == |v|
    ensures Dot(u + [a], v + [b]) == Dot(u, v) + a * b
    decreases |u|
  {
    if |u| > 0 {
      assert (u + [a])[1..] == u[1..] + [a] && (v + [b])[1..] == v[1..] + [b];
      DotAppend(u[1..], v[1..], a, b);
    }
  }

  /** The values over a nonempty basis are those over all but the last function,
      followed by the last one's. */
  lemma ValuesOfPrefix(basis: seq<Hermite>, x: real, num: Numerics)
    requires |basis| > 0 && AllInitialized(basis)
    ensures Values(basis, x, num) == Values(basis[..|basis| - 1], x, num) + [F(basis[|basis| - 1], x, num).value]
  {
    var n := |basis| - 1;
    var u, v := Values(basis, x, num), Values(basis[..n], x, num) + [F(basis[n], x, num).value];
    assert forall k :: 0 <= k < n ==> basis[..n][k] == basis[k];
    assert forall k :: 0 <= k < |u| ==> u[k] == v[k];
  }

  /** The wavefunction value is the dot product of the coefficient column with the
      basis functions' values. */
  lemma {:induction false} CombinationIsDot(coeffs: seq<real>, basis: seq<Hermite>, x: real, num: Numerics)
    requires |coeffs| == |basis| && AllInitialized(basis)
    ensures Combination(coeffs, basis, x, num) == Dot(coeffs, Values(basis, x, num))
    decreases |basis|
  {
    if |basis| > 0 {
      var n := |basis| - 1;
      var cs, bs := coeffs[..n], basis[..n];
      var a, b := coeffs[n], F(basis[n], x, num).value;
      assert coeffs == cs + [a];
      calc {
        Combination(coeffs, basis, x, num);
        Combination(cs, bs, x, num) + a * b;
        { CombinationIsDot(cs, bs, x, num); }
        Dot(cs, Values(bs, x, num)) + a * b;
        { DotAppend(cs, Values(bs, x, num), a, b); }
        Dot(cs + [a], Values(bs, x, num) + [b]);
        { ValuesOfPrefix(basis, x, num); }
        Dot(coeffs, Values(basis, x, num));
      }
    }
  }

  // ---------------------------------------------------------------------------
  // The solver object

  class Solver {
    var solved: bool
    var n: int
    var nRed: int
    var basisSet: seq<Hermite>
    var S: array2<real>
    var H: array2<real>
    var E: seq<real>
    var C: Matrix

    /** The basis set never exceeds the capacity N, the matrices are N by N, and a
        solved system keeps between 1 and N energies with an N-by-N_red coefficient
        matrix. */
    ghost predicate Valid()
      reads this
    {
      && 0 <= n && |basisSet| <= n
      && S.Length0 == S.Length1 == H.Length0 == H.Length1 == n && S != H
      && (solved ==> |basisSet| == n && 1 <= nRed <= n && |E| == nRed && Ascending(E) && IsMatrix(C, n, nRed))
    }

    /** An empty solver with room for `capacity` basis functions. */
    constructor WithCapacity(capacity: nat)
      ensures Valid() && !solved && n == capacity && basisSet == [] && nRed == -1
      ensures fresh(S) && fresh(H)
    {
      solved := false;
      n := capacity;
      nRed := -1;
      basisSet := [];
      H := new real[capacity, capacity]((i, j) => 0.0);
      S := new real[capacity, capacity]((i, j) => 0.0);
      E, C := [], [];
    }

    /** A solver over the given basis set, whose capacity is its length: the set
        starts full. */
    constructor FromBasis(basis: seq<Hermite>)
      ensures Valid() && !solved && n == |basis| && basisSet == basis && nRed == -1
      ensures fresh(S) && fresh(H)
    {
      solved := false;
      n := |basis|;
      nRed := -1;
      basisSet := basis;
      H := new real[|basis|, |basis|]((i, j) => 0.0);
      S := new real[|basis|, |basis|]((i, j) => 0.0);
      E, C := [], [];
    }

    /** Appends a basis function, or reports MaxDimensionError when the set is full. */
    method Add(h: Hermite) returns (outcome: Outcome)
      requires Valid()
      modifies this
      ensures Valid()
      ensures outcome.Fail? <==> |old(basisSet)| >= n
      ensures outcome.Fail? ==> outcome.error == MaxDimensionError && basisSet == old(basisSet)
      ensures outcome.Pass? ==> basisSet == old(basisSet) + [h]
      ensures n == old(n) && solved == old(solved) && S == old(S) && H == old(H)
      ensures nRed == old(nRed) && E == old(E) && C == old(C)
    {
      if |basisSet| >= n {
        return Fail(MaxDimensionError);
      }
      basisSet := basisSet + [h];
      outcome := Pass;
    }

    /** Builds and solves the eigenproblem: S and H from the quadrature, made
        symmetric; the overlap eigenvalues cut at the threshold; the Hamiltonian in
        the kept, rescaled overlap eigenvectors, made symmetric and diagonalized.
        A default-constructed basis function makes the first integral over it
        throw InitError, and the system stays as it was. */
    method Solve(threshold: real, quad: Quadrature, eig: Matrix -> Eigen, num: Numerics) returns (outcome: Outcome)
      requires Valid() && |basisSet| == n >= 1 && EigenOracle(eig)
      modifies this, S, H
      ensures n == old(n) && basisSet == old(basisSet) && S == old(S) && H == old(H)
      ensures Valid()
      ensures outcome.Fail? <==> !AllInitialized(basisSet)
      ensures outcome.Fail? ==> outcome.error == InitError && unchanged(S, H)
      ensures outcome.Fail? ==> solved == old(solved) && nRed == old(nRed) && E == old(E) && C == old(C)
      ensures outcome.Pass? ==> solved && Assembled(S, H, basisSet, quad)
      ensures outcome.Pass? ==> IsSymmetric(Rows(S)) && IsSymmetric(Rows(H))
      ensures outcome.Pass? ==> nRed == ReducedDimension(eig(Rows(S)).values, threshold) && Ascending(E)
      ensures outcome.Pass? ==> E == eig(ReducedHamiltonian(Rows(S), Rows(H), threshold, eig, num)).values
      ensures outcome.Pass? ==>
        C == MatMul(KeptBasis(Rows(S), threshold, eig, num),
                    eig(ReducedHamiltonian(Rows(S), Rows(H), threshold, eig, num)).vectors, n, nRed, nRed)
    {
      if !AllInitialized(basisSet) {
        return Fail(InitError);
      }
      Assemble(S, H, basisSet, quad);
      var overlap, hamiltonian := Rows(S), Rows(H);
      assert IsSymmetric(overlap) && IsSymmetric(hamiltonian);
      var reduced, energies, coefficients := Reduce(overlap, hamiltonian, threshold, eig, num);
      Record(reduced, energies, coefficients);
      outcome := Pass;
    }

    /** The last assignments of solve: the reduced dimension, energies and
        coefficients are stored and the system is marked solved. */
    method Record(reduced: nat, energies: seq<real>, coefficients: Matrix)
      modifies this
      ensures nRed == reduced && E == energies && C == coefficients && solved
      ensures n == old(n) && basisSet == old(basisSet) && S == old(S) && H == old(H)
    {
      nRed, E, C, solved := reduced, energies, coefficients, true;
    }

    /** The kept dimension, or SolverError before solve. */
    function GetNReduced(): (r: Result<int>)
      reads this
      requires Valid()
      ensures r.Err? <==> !solved
      ensures r.Err? ==> r.error == SolverError
      ensures r.Ok? ==> r.value == nRed && 1 <= r.value <= n
    {
      if !solved then Err(SolverError) else Ok(nRed)
    }

    /** The index-th energy, or SolverError before solve and BoundError past N_red. */
    function Energy(index: nat): (r: Result<real>)
      reads this
      requires Valid()
      ensures !solved ==> r == Err(SolverError)
      ensures solved && index >= nRed ==> r == Err(BoundError)
      ensures solved && index < nRed ==> r.Ok? && r.value == E[index]
      ensures solved && index < nRed ==> forall k :: 0 <= k < index ==> E[k] <= r.value
    {
      if !solved then Err(SolverError)
      else if index >= nRed then Err(BoundError)
      else Ok(E[index])
    }

    /** The index-th wavefunction at x: the basis functions' values weighted by the
        index-th coefficient column. */
    method Psi(index: nat, x: real, num: Numerics) returns (r: Result<real>)
      requires Valid()
      ensures !solved ==> r == Err(SolverError)
      ensures solved && index >= nRed ==> r == Err(BoundError)
      ensures solved && index < nRed && !AllInitialized(basisSet) ==> r == Err(InitError)
      ensures solved && index < nRed && AllInitialized(basisSet) ==>
        r == Ok(Dot(Column(C, index), Values(basisSet, x, num)))
    {
      if !solved {
        return Err(SolverError);
      }
      if index >= nRed {
        return Err(BoundError);
      }
      var coeffs := Column(C, index);
      var value := 0.0;
      var i := 0;
      while i < n
        invariant 0 <= i <= n
        invariant AllInitialized(basisSet[..i])
        invariant value == Combination(coeffs[..i], basisSet[..i], x, num)
      {
        var fi := F(basisSet[i], x, num);
        if fi.Err? {
          return Err(fi.error);
        }
        value := value + C[i][index] * fi.value;
        assert coeffs[..i + 1][..i] == coeffs[..i] && basisSet[..i + 1][..i] == basisSet[..i];
        i := i + 1;
      }
      assert coeffs[..i] == coeffs && basisSet[..i] == basisSet;
      CombinationIsDot(coeffs, basisSet, x, num);
      r := Ok(value);
    }
  }
}
