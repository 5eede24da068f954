# SymNMF core in Dafny

This project models the numerical core of `symnmf.c`, the C half of a
symmetric non-negative matrix factorization (SymNMF) clustering tool. The
pipeline starts from n data points of dimension d (the matrix X). From them it
builds three n x n matrices:

- the similarity matrix A (`sym`);
- the diagonal degree matrix D (`ddg`);
- the normalized similarity W = D^-1/2 A D^-1/2 (`norm`).

It then factorizes W ≈ H Hᵀ by the damped multiplicative update

    H'[i][j] = H[i][j] * (1 - BETA + BETA * (W H)[i][j] / (H Hᵀ H)[i][j])

(`update_H`). `symnmf` repeats that update until two successive iterates lie
within EPS in squared Frobenius distance, or MAX_ITER updates have been made.

The model has two layers:

- **Functions on values** (`Matrix = seq<seq<real>>`).
  - `MatrixAlgebra`: shape, transpose, product, squared distances and the
    squared Frobenius norm.
  - `Stages`: `Affinity`, `Degree`, `Normalized`, `Updated`, and BETA = 0.5.
  - `Factorization`: EPS = 1e-4 and MAX_ITER = 300. `Run` is the sequence of
    iterates the loop computes. `Trace` is a step-by-step characterisation
    of that sequence, proved equivalent to `Run`.
- **Methods on heap buffers** (`array2<real>`). Each one is proved to compute
  the function that specifies it.
  - `Primitives`: the five helpers of `symnmf.c`.
  - `Pipeline`: `sym`, `ddg`, `norm` and `update_H`.
  - `Driver`: the `symnmf` loop.
  - `Ownership`: `free_matrix` is a ghost step on a ledger of live and freed
    buffers. With it, the model states that `symnmf` frees every superseded
    iterate exactly once, H0 included, and never frees the one it returns.

`exp` and `sqrt` from the C math library are parameters of type
`real -> real`. `Libm.ExpLike` and `Libm.SqrtLike` state all that the proofs
assume about them:

- exp is positive everywhere, and at most 1 on non-positive arguments;
- sqrt is positive on positive arguments.

For n = 2, k = 1, H0 = [[1],[1]] and W = [[0,1],[1,0]]: W H0 = [[1],[1]] and
H0 H0ᵀ H0 = [[2],[2]], so the first update is 0.5 + 0.5 * 1/2 = 0.75 in each
entry, [[0.75],[0.75]]. It lies at squared distance 0.125 ≥ EPS from H0, so
`symnmf` does not stop after one update (`Factorization.TwoPointExample`).

## Model

| member | source | states |
|---|---|---|
| Primitives.FrobeniusNormSquared | symnmf.c:21-31 | returns the sum of the squares of all entries of the n x k buffer (`SquaredFrobenius` of its contents), which is non-negative |
| MatrixAlgebra.SquaredFrobeniusZero | symnmf.c:21-31 | the squared Frobenius norm is non-negative, and it is zero exactly when every entry is zero |
| Primitives.MatrixTranspose | symnmf.c:33-46 | returns a fresh k x n buffer whose contents are the transpose of the n x k input |
| MatrixAlgebra.TransposeInvolution | symnmf.c:33-46 | transposing twice gives back the original matrix |
| Ownership.FreeMatrix | symnmf.c:48-54 | freeing needs a live buffer and its own row count; afterwards the buffer is no longer live and is appended to the freed list; no buffer is ever freed twice (`Valid` is kept) |
| Ownership.Allocate | symnmf.c:174-178 | a buffer returned by an allocation becomes live; it was neither live nor freed before; `Valid` is kept |
| Primitives.EuclidianNormSquared | symnmf.c:56-63 | returns the sum over the first d coordinates of (x1[i] - x2[i])², which is non-negative |
| MatrixAlgebra.SqDistanceProperties | symnmf.c:56-63 | the squared Euclidean distance is non-negative and symmetric in its two points, and it is zero for points that agree in their first d coordinates |
| Primitives.MatrixMultiplication | symnmf.c:65-82 | returns a fresh n x r buffer C with C[i][j] the sum over t < m of A[i][t] * B[t][j] (`Product`) |
| MatrixAlgebra.ProductTranspose | symnmf.c:65-82 | (A B)ᵀ = Bᵀ Aᵀ |
| MatrixAlgebra.GramSymmetric | symnmf.c:172 | H Hᵀ is symmetric |
| MatrixAlgebra.ProductDiagonalLeft | symnmf.c:65-82 | multiplying by a diagonal matrix on the left scales row i by L[i][i] |
| MatrixAlgebra.ProductDiagonalRight | symnmf.c:65-82 | multiplying by a diagonal matrix on the right scales column j by R[j][j] |
| Pipeline.Sym | symnmf.c:84-103 | returns a fresh n x n buffer equal to `Affinity`: 0 on the diagonal, exp(-‖x_i - x_j‖² / 2) off it |
| Stages.AffinitySymmetric | symnmf.c:84-103 | the similarity matrix is symmetric and has a zero diagonal |
| Stages.AffinityOffDiagonal | symnmf.c:84-103 | with an exp that behaves like exp, every entry is non-negative, and every off-diagonal entry lies in (0, 1] |
| Pipeline.Ddg | symnmf.c:105-130 | returns a fresh n x n buffer equal to `Degree`: 0 off the diagonal, and on it the row sums of the similarity matrix |
| Stages.DegreeProperties | symnmf.c:105-130 | the degree matrix is diagonal and non-negative; D[i][i] is the sum of row i of A; it is strictly positive when n ≥ 2 and 0 when n = 1 |
| Pipeline.InvSqrtDiagonal | symnmf.c:139-152 | returns a fresh n x n buffer with 1 / sqrt(D[i][i]) on the diagonal and 0 elsewhere (`InvSqrtDegree`) |
| Pipeline.Norm | symnmf.c:132-160 | returns a fresh n x n buffer equal to `Normalized`, the product D^-1/2 A D^-1/2 |
| Stages.NormDefinedUnlessSingleton | symnmf.c:132-160 | for n ≠ 1, with exp and sqrt behaving like theirs, no sqrt(D[i][i]) is 0, so `norm` divides by no zero |
| Stages.ScaledEntry | symnmf.c:153-154 | entry (i, j) of D^-1/2 A D^-1/2 is (1/sqrt(D[i][i])) * A[i][j] * (1/sqrt(D[j][j])) |
| Stages.NormalizedEntry | symnmf.c:132-160 | W[i][j] = A[i][j] / (sqrt(D[i][i]) * sqrt(D[j][j])) |
| Stages.NormalizedSymmetric | symnmf.c:132-160 | W is symmetric and has a zero diagonal |
| Stages.NormalizedNonNegative | symnmf.c:132-160 | with exp and sqrt behaving like theirs, W is non-negative, and strictly positive off the diagonal |
| Pipeline.DampedStep | symnmf.c:174-182 | returns a fresh n x k buffer whose entry (i, j) is H[i][j] * (1 - BETA + BETA * WH[i][j] / G[i][j]); this needs every G entry non-zero (`Damped`) |
| Pipeline.UpdateH | symnmf.c:162-188 | returns a fresh n x k buffer equal to `Updated(H, W)`: the damped step with numerator W H and denominator H Hᵀ H; H and W are not modified |
| Stages.UpdatedNonNegative | symnmf.c:162-188 | for non-negative H and W, the update is non-negative, each entry is at least (1 - BETA) times the old one, and an entry is zero exactly when it was zero before |
| Stages.UpdatedPositive | symnmf.c:162-188 | for positive H and non-negative W, the update is defined (H Hᵀ H has no zero entry) and is positive |
| Primitives.FrobDistance | symnmf.c:190-206 | returns the squared Frobenius norm of A - B (`Distance`), which is non-negative |
| MatrixAlgebra.DistanceSymmetric | symnmf.c:190-206 | the squared Frobenius distance is symmetric in its two arguments |
| MatrixAlgebra.DistanceZeroIffEqual | symnmf.c:190-206 | the squared Frobenius distance is non-negative, and it is zero exactly when the two matrices are equal |
| Factorization.Run | symnmf.c:208-223 | the loop entered at iteration i from H makes between 1 and MAX_ITER - i updates, and its first iterate is H |
| Factorization.TraceCons | symnmf.c:211-219 | putting in front of a trace the iterate its first update came from gives a trace one iteration earlier, when that update is at least EPS away |
| Factorization.RunIsTrace | symnmf.c:211-219 | in `Run`, each iterate after the first is the update of its predecessor; every update but the last is at least EPS from its predecessor; the last one is within EPS, or was made at iteration MAX_ITER - 1 |
| Factorization.TraceTail | symnmf.c:211-219 | a trace of two or more updates continues past its first update, and what follows is a trace from the next iteration |
| Factorization.TraceIsRun | symnmf.c:211-219 | any sequence with those step and stopping properties is exactly `Run` of its first element, so they determine the run |
| Factorization.StopsAtFixedPoint | symnmf.c:211-216 | if the first update is already within EPS of H, the run is [H, update(H)]; the result is then within EPS of H |
| Factorization.RunPositive | symnmf.c:208-223 | from a positive H0 and a non-negative W, every update is defined and every iterate is positive |
| Factorization.RunNonNegative | symnmf.c:208-223 | from a non-negative H0 and a non-negative W whose updates are all defined, every iterate is non-negative, the returned one included |
| Factorization.UpdatedKeepsZeros | symnmf.c:176-182 | a corollary of `Stages.UpdatedNonNegative` in `KeepsZeros` form: for non-negative H and W, the update is non-negative and every entry that is zero in H is zero in the update |
| Factorization.RunKeepsZerosOf | symnmf.c:208-223 | if H keeps the zero entries of a matrix Z, so does every iterate of the run from H |
| Factorization.RunKeepsZeros | symnmf.c:208-223 | from a non-negative H0 and a non-negative W whose updates are all defined, an entry that is zero in H0 is zero in every iterate, the returned one included |
| Factorization.TwoPointExample | symnmf.c:162-206 | for H = [[1],[1]] and W = [[0,1],[1,0]], the update is [[0.75],[0.75]] at squared distance 0.125 ≥ EPS, so the loop does not stop after one update |
| Factorization.TwoPointUpdate | symnmf.c:162-188 | for that H and W, the update is defined and equals [[0.75],[0.75]] |
| Factorization.TwoPointGram | symnmf.c:171-173 | for H = [[1],[1]], H Hᵀ H = [[2],[2]] |
| Factorization.TwoPointNumerator | symnmf.c:170 | for W = [[0,1],[1,0]] and H = [[1],[1]], W H = [[1],[1]] |
| Factorization.TwoPointDistance | symnmf.c:190-206 | the squared distance between [[0.75],[0.75]] and [[1],[1]] is 0.125 |
| Ownership.Replace | symnmf.c:212-218 | allocating next_H, then freeing current_H, extends the chain of iterates by one: the new buffer is live, and the one it replaces is appended to the freed list |
| Ownership.HoldingDistinct | symnmf.c:208-223 | the iterates of one run are pairwise distinct buffers, so freeing each superseded one never frees a buffer twice |
| Driver.Advance | symnmf.c:212-213 | one pass of the loop: the new buffer holds the next iterate; a distance below EPS means that iterate is the last, and one of at least EPS means the run goes on unless this was iteration MAX_ITER - 1; the ledger gains the new buffer and then loses current_H |
| Driver.Iterate | symnmf.c:211-219 | the loop computes every iterate of `Run`; the last buffer it allocated holds the last iterate; when it was left through the break, current_H is still live |
| Driver.SymNmf | symnmf.c:208-223 | returns a buffer holding the last iterate of `Run(H0, W)`; every earlier iterate's buffer, H0 included, is freed exactly once and in order; the result stays live; W stays live, and nothing else owned is freed; the returned buffer is none of the buffers the caller owned or had freed (so it is neither W nor H0) |

## Left out

- The model works over exact reals, not IEEE doubles. Rounding, overflow, NaN and infinities are not modelled, and neither are the floating-point literals 1e-4 and 0.5 as binary doubles.
- `exp` and `sqrt` are parameters. The proofs assume only `Libm.ExpLike` and `Libm.SqrtLike` about them.
- I/O is left out: `main`, `print_vector`, reading the points file and printing results, along with the Python extension module and the Python scripts.
- Allocation failure is not modelled. Every `malloc` succeeds and returns a fresh buffer, so `assert(... != NULL)` never fires.
- Every matrix is a rectangular `array2<real>`, not a table of separately allocated rows. Methods require the exact shape their C counterparts assume.
- The points X are an immutable value (`seq<seq<real>>`). The C code only reads them.
- Only the iterates of `symnmf` go through the ledger. The temporary matrices that `ddg`, `norm`, `update_H` and `frob_distance` allocate and free are not tracked. Their methods state only that their results are fresh.
- Pipeline.Norm: division by zero is a precondition. `NormDefined` (no sqrt(D[i][i]) is 0) is required, and it fails for n = 1, where the C code divides by sqrt(0). `NormDefinedUnlessSingleton` proves that it holds for every other n.
- Pipeline.UpdateH: division by zero is a precondition. `UpdateDefined` (no entry of H Hᵀ H is 0) is required rather than modelled as a result. `UpdatedPositive` and `RunPositive` prove that it holds from a positive H0 and a non-negative W.
- Driver.SymNmf: requires `RunDefined`, that every update the loop reaches is defined, for the same reason.
- Driver.SymNmf: does not state that the buffers it allocated are `fresh`. It states instead that every iterate after H0, the returned buffer included, is distinct from every buffer the caller owned or had freed.
- Pipeline.Ddg and Primitives.MatrixMultiplication accumulate into a local real, not directly into the output entry as the C code does. The two orders of summation are the same over the reals.
- Driver.Iterate: `next_H` starts out as H0, where the C variable is uninitialised. With MAX_ITER = 300 the loop runs at least once, so the value is never read.
- Driver: the `symnmf` loop is split across `Advance` (one pass) and `Iterate` (the loop), and `SymNmf` performs the final free. The C `break` is a `return` from `Iterate`.

