# nohs — a verified model of the variational core

nohs computes bound states of a one-dimensional quantum particle. It expands the
wavefunction over Hermite–Gaussian basis functions (harmonic-oscillator
eigenfunctions with a width `alpha` and a `center`). It assembles the overlap and
Hamiltonian matrices by quadrature. It drops near-linear dependence by canonical
orthogonalization and solves the reduced eigenproblem. An optimizer tunes the
widths of labelled groups of basis functions.

This project models the discrete part of that engine in Dafny and proves its
contracts. The parts are:

- `hermite.dfy` (module `HermiteBasis`): the three-term recurrence, both as a
  recursive definition and as the rolling two-variable loop; the `Hermite` value
  with its uninitialised state; and `f`, `d1f` and `d2f` with their order case
  splits.
- `optimizer.dfy` (module `Optimizers`):
  - the linear label search;
  - `Optimizer.add`, with its label/guess consistency check and its count of
    distinct labels;
  - the loop that maps labels to free-parameter indices;
  - the write-back of one width per group;
  - the group-by-group basis-set layout of `minimization_target` and
    `generate_basis_set`.
- `solver.dfy` (module `Solvers`):
  - the `Solver` object with its capacity check;
  - the in-place symmetrization sweeps over `S`, `H` and `H_red`;
  - the `stop_index` scan that fixes `N_red`, and the `Q_red` column mapping;
  - the `solved` and bound guards;
  - `psi` as a linear combination.
- `matrices.dfy` (module `Matrices`): dense matrices as sequences of rows, with
  exact products standing in for the linear-algebra library.
- `errors.dfy` (module `Errors`): the exception kinds, with `Result` and `Outcome`
  carrying them.

Foreign numerics are parameters:

- `Numerics` holds `sqrt(p/q)`, the two closed-form seeds and `1/sqrt`.
- `Quadrature` holds the two integrals over a pair of basis functions.
- `eig`, the symmetric eigensolver, is an arrow that is required to return ascending
  eigenvalues with a square eigenvector matrix.
- The simplex minimizer is an arrow from the starting vector, the iteration cap and
  the stopping size to the final vector.

The model follows the `.cpp` definitions where the headers differ. For example,
`optimize` takes the iteration cap and the stopping size, and the
`InvalidError`/`OptimizeError` kinds are used as the `.cpp` files throw them.

## Model

| member | source | states |
|---|---|---|
| HermiteBasis.HermiteValue | src/hermite.cpp:7-20 | orders 0 and 1 return the seeds directly; for higher orders the rolling loop returns the recursively defined order-th term of the recurrence |
| HermiteBasis.F | src/hermite.cpp:26-29 | fails with InitError exactly for a default-constructed function, and succeeds for every constructed one |
| HermiteBasis.D1F | src/hermite.cpp:31-37 | fails with InitError exactly for a default-constructed function |
| HermiteBasis.D2F | src/hermite.cpp:39-50 | fails with InitError exactly for a default-constructed function |
| HermiteBasis.FirstDerivativeMatchesGeneral | src/hermite.cpp:34-36 | every order case of d1f equals the general formula with the order -1 term taken as zero, so no negative order is evaluated |
| HermiteBasis.SecondDerivativeMatchesGeneral | src/hermite.cpp:42-49 | the order 0, order 1 and general cases of d2f all equal 0.5*alpha^2*(a - b + c) with a = 0 below order 2 |
| HermiteBasis.ShiftInvariance | src/hermite.cpp:26-50 | f, d1f and d2f depend on x only through x - center: shifting both leaves all three unchanged |
| Optimizers.IndexOf | src/optimizer.cpp:8-18 | -1 exactly when the element is absent, otherwise the index of its first occurrence |
| Optimizers.FindIndex | src/optimizer.cpp:8-18 | the loop with early break returns -1 exactly when absent, else the first occurrence, and agrees with IndexOf |
| Optimizers.Distinct | src/optimizer.cpp:54-56 | the labels without repeats, in first-occurrence order: same members, no duplicates |
| Optimizers.DistinctKeepsFirstOccurrenceOrder | src/optimizer.cpp:80-87 | a label first met earlier stands earlier among the distinct labels |
| Optimizers.Slots | src/optimizer.cpp:78-89 | every group's index lies in [0, number of distinct labels) and names that group's label |
| Optimizers.SlotsShareIffLabelsShare | src/optimizer.cpp:84-86 | two groups get the same index if and only if they carry the same label |
| Optimizers.SlotsInFirstOccurrenceOrder | src/optimizer.cpp:80-87 | indices are handed out in the order in which labels first occur |
| Optimizers.StartPointAtSlot | src/optimizer.cpp:81-82 | the starting vector at a group's index holds the guess given at the first occurrence of its label |
| Optimizers.MarkGroups | src/optimizer.cpp:84-86 | exactly the groups carrying the label are set to the index; all other entries are unchanged |
| Optimizers.VisitGroup | src/optimizer.cpp:81-88 | one iteration keeps the loop invariant: skip is the distinct labels seen so far, idx its length, x and assignment filled for them |
| Optimizers.AssignParameters | src/optimizer.cpp:76-89 | idx ends equal to the number of distinct labels, x is the first-occurrence guesses and assignment is Slots |
| Optimizers.AppendGroup | src/optimizer.cpp:54-61 | appending a group keeps the four vectors parallel and the guesses consistent, and adds one distinct label exactly when the label is new |
| Optimizers.StartPointMatchesEveryGuess | src/optimizer.cpp:57 | with consistent guesses the starting value at each group's index equals that group's own guess |
| Optimizers.WriteBack | src/optimizer.cpp:119-122 | optimized_alpha holds, for every group, the entry of the minimizer's vector at that group's index |
| Optimizers.SharedLabelsShareWidth | src/optimizer.cpp:119-122 | groups with equal labels receive equal widths |
| Optimizers.Layout | src/optimizer.cpp:135-142 | the laid-out basis set has as many functions as the sum of (max_order + 1) over the groups |
| Optimizers.LayoutAt | src/optimizer.cpp:135-142 | the order-k function of group i sits after all earlier groups' functions and carries order k, group i's width and group i's center |
| Optimizers.BuildBasisSet | src/optimizer.cpp:136-141 | the nested push_back loops produce exactly Layout |
| Optimizers.Optimizer.constructor | src/optimizer.cpp:52 | starts with no groups, no labels and no optimization |
| Optimizers.Optimizer.Add | src/optimizer.cpp:54-62 | InvalidError, and nothing appended, exactly when a reused label comes with a guess other than that of its first occurrence; otherwise one entry appended to each vector, N_labels incremented exactly when the label is new, the invariants kept |
| Optimizers.Optimizer.Optimize | src/optimizer.cpp:68-130 | optimized_alpha is the minimizer's result gathered by Slots, one entry per group; optimized becomes true; the groups are unchanged |
| Optimizers.Optimizer.TrialBasisSet | src/optimizer.cpp:34-41 | the trial basis set is the layout of the groups, each with the trial entry at its index, of size sum of (max_order + 1) |
| Optimizers.Optimizer.GenerateBasisSet | src/optimizer.cpp:132-143 | OptimizeError before optimize; InvalidError when the order list length differs from the group count; OptimizeError when a group was added after optimize, so the stored widths no longer cover every group (a guard the source lacks, see Findings); otherwise the layout with the optimized widths and the given orders |
| Optimizers.StaleWidthsCounterexample | src/optimizer.cpp:133-138 | a group added after optimize passes both guards of generate_basis_set while optimized_alpha is one entry shorter than the list it is read along |
| Solvers.Solver.WithCapacity | src/solver.cpp:34-38 | starts unsolved with an empty basis set, capacity N, N_red = -1 and N-by-N matrices |
| Solvers.Solver.FromBasis | src/solver.cpp:40-42 | N is the length of the given basis set, so the set starts full |
| Solvers.Solver.Add | src/solver.cpp:48-51 | MaxDimensionError exactly when the set already holds N functions; otherwise exactly one function appended at the end; the size never exceeds N; N_red, the energies and the coefficients are untouched either way |
| Solvers.FillMatrices | src/solver.cpp:58-65 | each cell of S and H holds the overlap and Hamiltonian integral over its pair of basis functions |
| Solvers.Averaged | src/solver.cpp:70-79 | the symmetrized matrix is symmetric, keeps the diagonal, and keeps every sum M[i][j] + M[j][i] |
| Solvers.AveragePair | src/solver.cpp:72-77 | one step of the sweep turns the pair (row, col), (col, row) into its mean and touches nothing else |
| Solvers.SymmetrizePair | src/solver.cpp:70-79 | after the sweep below the diagonal every cell of S and H is that of Averaged of its old contents |
| Solvers.Assemble | src/solver.cpp:58-79 | S and H are the symmetrized overlap and Hamiltonian matrices of the basis set |
| Solvers.CutScan | src/solver.cpp:85-91 | for N >= 1, 0 <= stop_index <= N-1; every S_eval[k] with stop_index <= k <= N-2 is at least the threshold; stop_index is 0 or S_eval[stop_index-1] is below it |
| Solvers.CutIsReducedDimension | src/solver.cpp:85-93 | with ascending eigenvalues, N_red = N - stop_index equals max(1, number of eigenvalues at or above the threshold) |
| Solvers.ReducedDimensionAntitone | src/solver.cpp:85-93 | N_red does not grow as the threshold grows |
| Solvers.ReducedTransform | src/solver.cpp:99-104 | column col of Q_red is column stop_index + col of Q times the reciprocal square root of its eigenvalue |
| Solvers.KeepBasis | src/solver.cpp:81-104 | N_red is the reduced dimension of the overlap spectrum and Q_red holds exactly the kept, rescaled overlap eigenvectors |
| Solvers.ReducedHamiltonian | src/solver.cpp:106-118 | Q_red^T * H * Q_red with its pairs averaged is symmetric and N_red by N_red |
| Solvers.TransformHamiltonian | src/solver.cpp:106-118 | H_red after the product and the in-place sweep is the reduced Hamiltonian |
| Solvers.SymmetrizeReduced | src/solver.cpp:112-118 | the sweep with the diagonal included leaves H_red equal to Averaged of its old contents: symmetric with the diagonal unchanged |
| Solvers.Reduce | src/solver.cpp:81-124 | N_red is the reduced dimension of the overlap spectrum, 1 <= N_red <= N; the energies are the eigenvalues of the reduced Hamiltonian, N_red of them in ascending order; C is Q_red times the reduced Hamiltonian's eigenvectors, N by N_red |
| Solvers.Solver.Solve | src/solver.cpp:53-127 | InitError, with nothing changed and solved as before, exactly when some basis function is default-constructed; otherwise solved holds, S and H are the symmetrized integral matrices, N_red is the reduced dimension, E are the eigenvalues of the reduced Hamiltonian (ascending) and C is Q_red times its eigenvectors |
| Solvers.Solver.GetNReduced | src/solver.cpp:129-132 | SolverError exactly before solve; afterwards N_red, a value in [1, N] |
| Solvers.Solver.Energy | src/solver.cpp:134-138 | SolverError before solve, BoundError for index >= N_red, otherwise E[index], which no lower energy exceeds |
| Solvers.Solver.Psi | src/solver.cpp:140-148 | SolverError before solve, BoundError for index >= N_red, InitError when some basis function is uninitialised, otherwise the sum over k of C[k][index] * f_k(x) |
| Solvers.CombinationIsDot | src/solver.cpp:143-147 | the value accumulated term by term equals the dot product of the coefficient column with the basis values |

## Left out

- Floating point: all arithmetic is exact over `real`. Rounding, overflow of
  `int` products such as `order*(order-1)`, and convergence tolerances are not
  modelled.
- `sqrt`, `exp`, `pow` and `M_PI` are uninterpreted `Numerics` fields:
  `sqrt(p/q)` is `sqrtRatio(p, q)`, the order-0 and order-1 closed forms are
  `seed0` and `seed1`, and `1/sqrt` is `invSqrt`.
- The adaptive quadrature and its workspace (src/solver.cpp:15-24), the integrands
  and the potential `V`: each matrix element is `quad.overlap` or
  `quad.hamiltonian` of its pair of basis functions.
- `eig_sym` is an oracle arrow. Ascending eigenvalues and a square eigenvector
  matrix are required of it, not proved.
- The simplex minimizer (allocation, iteration, size test, free) is an arrow from
  the starting vector, the iteration cap and the stopping size to a vector of
  `N_labels` entries. `minimization_target`'s energy evaluation through a fresh
  solver is not modelled; only its basis layout is (`TrialBasisSet`).
- The verbose console output of `optimize`, and `set_integration_parameters` of
  both classes, which only store quadrature settings.
- OpenMP parallel regions: every loop is modelled sequentially.
- The `Carrier`/`aux_func_gsl` and `OptCarrier` callback plumbing.
- HermiteBasis.Hermite: the order is a `nat`. A negative order given to the
  three-argument constructor is not modelled.
- Solvers.Solver.Energy: the index is a `nat`, so the out-of-range read for a
  negative index is not modelled. The same holds for Solvers.Solver.Psi.
- Solvers.Solver.Solve: requires a full basis set with N >= 1. With fewer functions
  the source indexes past the end of `BasisSet`. With N = 0 it reads `S_eval(-1)`.
- Optimizers.Optimizer.Optimize: requires at least one group, because the
  minimizer cannot be allocated for zero parameters. It also requires the
  minimizer to return one entry per distinct label.
- The default constructor of `Hermite` leaves `center` unset in the source; the
  model's `Uninitialized` value carries no fields, since every evaluation of it fails.
- Solvers.Solver.Solve: on InitError the model leaves S and H untouched. In the
  source, the cells integrated before the first default-constructed function are
  already written when the exception leaves the loop. Inside an OpenMP region the
  exception would end the program instead.

## Findings

| source | as written | input that shows it | evidently intended | confidence | as-written member | corrected member |
|---|---|---|---|---|---|---|
| src/optimizer.cpp:133-138 | generate_basis_set checks only `optimized` and the list length, then reads `optimized_alpha[i]` for every group | `add(0,0,1,0)`, `optimize`, `add(1,0,1,1)`, then `generate_basis_set({0,0})` reads `optimized_alpha[1]` of a one-entry vector | a stored optimization that does not cover every group is refused | medium, not executed | Optimizers.StaleWidthsCounterexample | Optimizers.Optimizer.GenerateBasisSet |
