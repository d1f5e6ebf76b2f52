# LUM matrix engines in Dafny

LUM is a small in-browser teaching tool that shows matrix decompositions step
by step. This project models its computational core over exact `real`
arithmetic:

- **`SparseSkyline`** (`sparse_matrix.dfy`, `scripts/SparseMatrix.js`):
  - a symmetric matrix in skyline (profile) storage, the class `SparseMatrix`;
  - the flat value array `data` and the diagonal indices;
  - the skyline `m`, which the constructor derives;
  - `fromDense`, which builds the layout with push loops;
  - `toDense` and the symmetric `getElem`;
  - the in-place `LDLt` factorisation, proved against a value-level mirror
    (`Factorization`).
- **`RowReduction`** and **`Elimination`** (`row_reduction.dfy`,
  `elimination.dfy`, `scripts/decompose.js`):
  - `switchRows`;
  - `findRREF`, Gauss–Jordan reduction in place on an `array` of rows;
  - `findNullspace`, the same reduction on the transpose, with a companion
    identity matrix.
  - `Elimination` holds the functions the methods are proved against:
    - the pivot search;
    - one pivot step;
    - the whole reduction (`Rref`);
    - the reduction with a companion (`AugmentedFrom`).
  - It also proves the properties of these functions: reduced row echelon
    form, idempotence, and the kernel property of the corrected null space.
- **`LowerUpper`** and **`Decompositions`** (`lower_upper.dfy`,
  `decompositions.dfy`, `scripts/decompose.js`):
  - the LU elimination step and its step matrix `curL`;
  - the logs of L and U matrices;
  - `decomposeLU` with its `NO_DECOMP_RESULT` sentinel;
  - `generateP`, whose row order is chosen by the largest raw entry of each
    column of the original matrix;
  - `decomposePLU`.
- **`DraftDecompose`** (`draft_decompose.dfy`, `decompose.js`): the earlier
  draft of the LU engine. `getRowSwapMatrix` and `decompose(M, swapRows)`
  reuse the same elimination. They differ from the later engine in three
  ways:
  - no sentinel;
  - the logs keep their opening identity and input;
  - `P` is absent without `swapRows`.
- **`Ldl`** and **`LdlReconstruction`** (`ldl.dfy`, `ldl_reconstruction.dfy`,
  `scripts/decompose.js`):
  - `outerProduct`;
  - the rank-one-update `decomposeLDL`, with its log, L and D;
  - the proof, entry by entry, that the "sanity" product `L·(D·Lᵗ)` is the
    input for symmetric matrices whose negligible pivots sit in columns that
    are already zero.
- **`Parser`** (`parser.dfy`, `scripts/parser.js`):
  - the format test `getInputMatrixType`, with its regular expressions
    written out as predicates;
  - `parseDenseMatrix`: bracket and white-space removal, then splitting at
    `;` and `,`;
  - the stub `parseSparseMatrix`.
- **Shared helpers** (`matrices.dfy`, `products.dfy`, `results.dfy`,
  `wrappers.dfy`):
  - the math.js helpers the engines use (`eye`, `zeros`, `transpose`,
    `multiply`, row arithmetic), as pure functions over `seq<seq<real>>`;
  - permutations;
  - the result shape `[[steps...], extras...]` of the dense engines.

Dense matrices that the JavaScript mutates in place are `array<seq<real>>`:

- a row swap exchanges two cells;
- a row update assigns one cell;
- the logged snapshots are values, so later updates never reach them.

Each imperative method is proved against a function of its input or old
state. What the source promises is then proved about that function as lemmas.

Two claims made in the source's comments do not hold for the code, and the
model proves counterexamples to both:

- The `generateP` comment (`scripts/decompose.js` lines 248-253) says the
  row-swapped matrix always has an LU decomposition. `PivotingCanFail` shows
  otherwise: for the invertible `[[0,0,1],[1,5,0],[0,1,1]]`, `decomposePLU`
  returns the sentinel. `DraftDividesByZero` shows that the draft divides by
  a zero pivot on the same matrix.
- `decomposeLDL`'s comment (line 310) says the decomposition works "even if
  there are zeros on the diagonal". `ZeroPivotsLoseEntries` shows that for
  `[[0,1],[1,0]]` the sanity product is the zero matrix.

The sparse `LDLt` of `[[4,2],[2,5]]` stores `[4, 4, 0.5]`, so D = (4, 4)
(`FactorizationExample`, `LdltExample`).

## Model

| member | source | states |
|---|---|---|
| SparseSkyline.DiagonalAtLeastColumn | scripts/SparseMatrix.js:98-101 | in a well-formed layout the diagonal index of column c is at least c |
| SparseSkyline.RunsOrdered | scripts/SparseMatrix.js:98-101 | a later column's run starts no earlier than an earlier column's run ends |
| SparseSkyline.LayoutBounds | scripts/SparseMatrix.js:92-104 | every diagonal index lies inside `data`, every run ends within it, and every skyline entry lies between row 0 and its column |
| SparseSkyline.DiagonalsIncrease | scripts/SparseMatrix.js:98-101 | diagonal indices strictly increase with the column |
| SparseSkyline.IndexInColumnRun | scripts/SparseMatrix.js:152-154 | `_getIndex(row, col)` of a stored position (skyline ≤ row ≤ col) lies inside column col's run, hence inside `data` |
| SparseSkyline.ProfileSizeIsLength | scripts/SparseMatrix.js:98-101 | the representation invariant: `data.length` is the sum over columns of `col − m[col] + 1` |
| SparseSkyline.ProfileSizePrefix | scripts/SparseMatrix.js:98-101 | the first k columns occupy exactly the prefix of `data` up to the end of column k−1's run |
| SparseSkyline.ExtendLayout | scripts/SparseMatrix.js:47-50 | appending a column to the diagonal indices leaves every earlier column's run and skyline unchanged |
| SparseSkyline.GetSkyline | scripts/SparseMatrix.js:92-104 | `_getSkyline` computes each column's first stored row, which lies between 0 and the column for a well-formed layout |
| SparseSkyline.ScaleG | scripts/SparseMatrix.js:132-134 | dividing the g values fails exactly when some diagonal value divided by is zero; otherwise `data` keeps its length |
| SparseSkyline.UpdateGFrame | scripts/SparseMatrix.js:124-128 | the g-value update writes only inside column col's run |
| SparseSkyline.GValuesFrame | scripts/SparseMatrix.js:121-129 | computing all g values of a column writes only inside that column's run |
| SparseSkyline.ScaleGFrame | scripts/SparseMatrix.js:132-134 | turning g values into L values writes only inside the column's run |
| SparseSkyline.UpdateDFrame | scripts/SparseMatrix.js:137-140 | updating D of a column writes only inside that column's run |
| SparseSkyline.FactorColumnFrame | scripts/SparseMatrix.js:121-140 | one pass of the outer loop writes only inside the run of its column, so structural zeros and other columns stay as they are |
| SparseSkyline.FactorFromFrame | scripts/SparseMatrix.js:120-141 | the passes from column col on never touch positions before that column's run |
| SparseSkyline.FactorizationKeepsColumnZero | scripts/SparseMatrix.js:120 | `LDLt` never changes column 0 (the loop starts at column 1), so D(0) is the stored (0,0) value |
| SparseSkyline.FactorColumnDefined | scripts/SparseMatrix.js:132-134 | a pass is defined exactly when every diagonal value it divides by is nonzero |
| SparseSkyline.FactorizationExample | scripts/SparseMatrix.js:120-141 | the stored `[4, 5, 2]` of `[[4,2],[2,5]]` factors to `[4, 4, 0.5]` |
| SparseSkyline.LeadingZeros | scripts/SparseMatrix.js:53-55 | the leading-zero count of column col never exceeds col−1 (0 for column 0), so entry (col−1, col) is always stored |
| SparseSkyline.LeadingZerosSpec | scripts/SparseMatrix.js:53-55 | every row the scan skips holds 0 in the column, and the scan stops at a nonzero entry or at row col−1 |
| SparseSkyline.DiagonalsAt | scripts/SparseMatrix.js:49 | the diagonal index of column c is the number of values pushed before column c |
| SparseSkyline.StackedPrefix | scripts/SparseMatrix.js:47-61 | the values of earlier columns stay at the front of `data` as further columns are pushed |
| SparseSkyline.StackedStep | scripts/SparseMatrix.js:49-60 | pushing column c appends c − z + 1 values, the diagonal first and then rows c−1 down to the skyline z, with (r, c) at offset c − r |
| SparseSkyline.ColumnRunBounds | scripts/SparseMatrix.js:47-61 | in the built layout, column c's run ends where the first c+1 columns' values end, and its skyline is its leading-zero count |
| SparseSkyline.RunEndAt | scripts/SparseMatrix.js:47-61 | column c's run ends where the values of the first c+1 columns end |
| SparseSkyline.StackedGrows | scripts/SparseMatrix.js:47-61 | pushing columns only lengthens `data` |
| SparseSkyline.StoredValue | scripts/SparseMatrix.js:53-60 | the stored (r, c) entry at `_getIndex(r, c)` is the dense entry `denseM[r][c]` |
| SparseSkyline.StackedWellFormed | scripts/SparseMatrix.js:47-61 | the diagonal indices `fromDense` builds describe runs that tile its `data` |
| SparseSkyline.StackedValues | scripts/SparseMatrix.js:53-60 | every stored position of the built layout holds the dense entry |
| SparseSkyline.StackedLayout | scripts/SparseMatrix.js:47-61 | the built layout is well formed, its skyline is each column's leading-zero count, and every stored position holds the dense entry |
| SparseSkyline.SparseMatrix.constructor | scripts/SparseMatrix.js:16-29 | the object keeps the given `data` array itself and the diagonal indices, with `n` their count and `m` the derived skyline |
| SparseSkyline.SparseMatrix.GetElem | scripts/SparseMatrix.js:162-180 | `getElem` is undefined exactly when a coordinate is at least `n` or both are negative; one negative coordinate next to one in range reads 0 |
| SparseSkyline.SparseMatrix.GetElemChecked | scripts/SparseMatrix.js:156-161 | the documented lookup is undefined exactly when a coordinate lies outside 0 .. n-1, and agrees with `getElem` wherever it is defined |
| SparseSkyline.SparseMatrix.NegativeIndexReadsZero | scripts/SparseMatrix.js:165-177 | for a negative coordinate next to one in range, `getElem` reads 0 in both orders while the documented lookup is undefined |
| SparseSkyline.SparseMatrix.GetElemSymmetric | scripts/SparseMatrix.js:169-173 | `getElem(r, c) == getElem(c, r)` |
| SparseSkyline.SparseMatrix.GetElemStructuralZero | scripts/SparseMatrix.js:175-177 | above the skyline of the later column, `getElem` reads 0 |
| SparseSkyline.SparseMatrix.GetElemOfRepresented | scripts/SparseMatrix.js:162-180 | a matrix that stores the upper triangle of `a` reads back `a`'s upper triangle, mirrored below the diagonal |
| SparseSkyline.SparseMatrix.RepresentsLayout | scripts/SparseMatrix.js:26-28 | a matrix laid out as `fromDense` lays out `a` has skyline = leading-zero counts and represents `a` |
| SparseSkyline.SparseMatrix.ToDense | scripts/SparseMatrix.js:70-86 | `toDense` returns an n×n matrix whose every entry is `getElem` of that position |
| SparseSkyline.SparseMatrix.LDLt | scripts/SparseMatrix.js:110-144 | `LDLt` returns `this`, keeps the layout valid, and leaves `data` equal to the value-level factorisation of the old values |
| SparseSkyline.SparseMatrix.FactorColumnInPlace | scripts/SparseMatrix.js:121-140 | one pass of the outer loop, in place, is the value-level pass |
| SparseSkyline.SparseMatrix.ComputeGValues | scripts/SparseMatrix.js:121-129 | the g-value loop, in place, is the value-level g-value update |
| SparseSkyline.SparseMatrix.DivideGValues | scripts/SparseMatrix.js:132-134 | the division loop, in place, is the value-level division |
| SparseSkyline.SparseMatrix.UpdateDiagonal | scripts/SparseMatrix.js:137-140 | the D loop, in place, is the value-level D update |
| SparseSkyline.FromDense | scripts/SparseMatrix.js:37-64 | `fromDense` returns a fresh valid matrix whose skyline is each column's leading-zero count and which represents the upper triangle of the input |
| SparseSkyline.LayOut | scripts/SparseMatrix.js:47-61 | the push loop produces the layout `Stacked`/`Diagonals` that the layout lemmas describe |
| SparseSkyline.CountLeadingZeros | scripts/SparseMatrix.js:53-55 | the scan loop computes the leading-zero count |
| SparseSkyline.PushColumn | scripts/SparseMatrix.js:49-60 | one round of the loop appends exactly column col's run to `data` |
| SparseSkyline.DenseRoundTrip | scripts/SparseMatrix.js:37-86 | `toDense(fromDense(a))` is `a`'s upper triangle mirrored, and it is `a` itself when `a` is symmetric |
| SparseSkyline.LayoutExample | scripts/SparseMatrix.js:47-61 | `[[4,2],[2,5]]` is stored as `[4, 5, 2]` with diagonal indices `[0, 1]` |
| SparseSkyline.LdltExample | scripts/SparseMatrix.js:110-144 | `fromDense([[4,2],[2,5]]).LDLt()` leaves `[4, 4, 0.5]` |
| Matrices.SwapTwice | scripts/decompose.js:41-46 | switching the same two rows twice restores the matrix |
| RowReduction.SwitchRows | scripts/decompose.js:41-46 | rows i and j are exchanged in place, and every other row is kept |
| RowReduction.DivideRow | scripts/decompose.js:86-90 | only row r changes, and it becomes itself divided by the pivot value |
| RowReduction.SubtractRowMultiple | scripts/decompose.js:96-99 | only row k changes: its first `limit` entries lose val times row r's entries |
| RowReduction.SearchPivot | scripts/decompose.js:67-81 | the search loop stops with `stop` exactly when no pivot exists from the current row and column, and otherwise stops at the pivot the search function finds |
| RowReduction.EliminateColumn | scripts/decompose.js:92-101 | every row but the pivot row loses its column-c entry times the pivot row |
| RowReduction.PivotStepInPlace | scripts/decompose.js:83-101 | swap, normalise and eliminate in place is the value-level pivot step |
| RowReduction.FindRREF | scripts/decompose.js:52-106 | `m` ends as the reduced form `Rref` of its old value, and the result is `[[], ["RREF of", M]]` |
| RowReduction.EliminateRowBoth | scripts/decompose.js:164-167 | row k of M loses a multiple of the pivot row; row k of I loses the same multiple in its first `width` columns only |
| RowReduction.EliminateBoth | scripts/decompose.js:159-169 | the elimination loop updates every row but the pivot row of both M and I, as written |
| RowReduction.NullspaceStepInPlace | scripts/decompose.js:149-169 | one round changes M by the pivot step and I by the as-written companion step |
| RowReduction.AugmentedRound | scripts/decompose.js:128-171 | one round either stops the reduction or advances it by one pivot, leaving the rest of the run unchanged |
| RowReduction.ReduceAugmented | scripts/decompose.js:128-171 | the loop leaves M and I as the as-written reduction with a companion |
| RowReduction.CollectAfterDiagonal | scripts/decompose.js:173-178 | the rows of I returned are those from the end of the diagonal run of 1s on |
| RowReduction.FindNullspace | scripts/decompose.js:111-180 | the result is `[[], ["Nullspace of", ...]]` holding, as columns, the companion rows from the end of the diagonal run of 1s |
| Elimination.PivotSearch | scripts/decompose.js:67-78 | a found pivot is a nonzero entry at or below the current row, in the current or a later column |
| Elimination.PivotSearchFirst | scripts/decompose.js:67-78 | every entry the search passes over is zero |
| Elimination.FindPivot | scripts/decompose.js:67-81 | a found pivot is a nonzero entry in range |
| Elimination.FindPivotFirst | scripts/decompose.js:67-81 | the pivot is the first nonzero entry at or below the row, in column-major order; there is none exactly when that block is all zero (such columns are skipped without change) |
| Elimination.SubScaledFirst | scripts/decompose.js:165-167 | entries before n are `u[j] − s·v[j]`, later entries are kept |
| Elimination.PivotStepShape | scripts/decompose.js:83-101 | after a pivot step the pivot row has 1 in the pivot column, every other row 0 there, and nothing new appears left of the pivot |
| Elimination.PivotStepKeepsEchelon | scripts/decompose.js:62-103 | each pivot step extends the echelon form by one pivot in a strictly later column |
| Elimination.IncreasingBound | scripts/decompose.js:62-65 | strictly increasing pivot columns below `width` number at most `width` |
| Elimination.Rref | scripts/decompose.js:52-106 | the reduction preserves the dimensions |
| Elimination.RrefFromStep | scripts/decompose.js:83-102 | one round of the loop is the pivot step at the pivot found, and then the next column |
| Elimination.EchelonComplete | scripts/decompose.js:62-81 | the echelon form is complete once no row or column remains or no pivot is left |
| Elimination.RrefFromIsRref | scripts/decompose.js:62-103 | the rest of the loop keeps the echelon form and completes it |
| Elimination.RrefIsRref | scripts/decompose.js:52-106 | `findRREF` produces reduced row echelon form with at most min(height, width) pivots |
| Elimination.PivotStepAtUnitColumn | scripts/decompose.js:83-101 | a pivot step on a row already holding a lone leading 1 changes nothing |
| Elimination.PivotOfRref | scripts/decompose.js:67-101 | on a reduced matrix, the search for row k finds its own pivot and the step changes nothing |
| Elimination.RrefFromAtEnd | scripts/decompose.js:62-81 | past its last pivot, a reduced matrix has no pivot left to find |
| Elimination.SettledRound | scripts/decompose.js:62-103 | a round that changes nothing only advances the row and the column |
| Elimination.RrefFromOfSettled | scripts/decompose.js:62-103 | when every remaining round is settled, the rest of the loop changes nothing |
| Elimination.RrefOfRref | scripts/decompose.js:52-106 | a matrix already in reduced form is returned as it is, with its own pivots |
| Elimination.RrefIdempotent | scripts/decompose.js:52-106 | `findRREF(findRREF(M)) == findRREF(M)` |
| Elimination.AugmentedFromStep | scripts/decompose.js:149-170 | one round of `findNullspace` is the pivot step on M and the companion step on I |
| Elimination.AugmentedFromDone | scripts/decompose.js:128-147 | the loop stops with M and I unchanged once the rows, the columns or the pivots run out |
| Elimination.AugmentedIsRref | scripts/decompose.js:115-171 | the working matrix of `findNullspace` goes through exactly `findRREF`'s reduction, with the same pivots |
| Elimination.CompanionStepTracks | scripts/decompose.js:150-168 | the corrected companion step keeps `M == I·Mᵗ₀` |
| Elimination.AugmentedTracks | scripts/decompose.js:128-171 | the corrected reduction keeps `M == I·Mᵗ₀` to the end |
| Elimination.DiagonalRun | scripts/decompose.js:174 | the scan stops at the first row whose diagonal entry is not 1, or at the end |
| Elimination.DiagonalRunOnes | scripts/decompose.js:174 | every row the scan passes has a 1 on the diagonal |
| Elimination.NullspaceBasis | scripts/decompose.js:111-180 | every vector of the corrected basis has one entry per column of M |
| Elimination.NullspaceBasisInKernel | scripts/decompose.js:111-180 | every corrected basis vector v satisfies M·v = 0, and there are width − rank of them |
| Elimination.UnnormalizedCounterexample | scripts/decompose.js:153-157 | for `[[2,4]]` the as-written result is (−4, 1), which M maps to −4; the corrected basis is (−2, 1) |
| Elimination.WidthLimitCounterexample | scripts/decompose.js:164-168 | for `[[0,1,1]]` the as-written result includes (0, 0, 1), which M maps to 1; the corrected basis is (1,0,0), (0,−1,1) |
| Elimination.WidthLimitReduction | scripts/decompose.js:115-171 | the as-written and corrected reductions of `[[0,1,1]]` differ only in the companion row beyond the first `width` columns |
| Elimination.RankScanCounterexample | scripts/decompose.js:173-178 | for `[[0,0],[1,2]]` both companion rows are returned, among them (1, 0), which M maps to (0, 1); the corrected basis is (−2, 1) |
| LowerUpper.EliminateBelowRow | scripts/decompose.js:227-233 | a step keeps rows up to the pivot row, and a row below loses its multiple of the pivot row, which clears its entry in the pivot column |
| LowerUpper.StepLUnitLower | scripts/decompose.js:220-231 | every `curL` is unit lower-triangular |
| LowerUpper.StepLUndoes | scripts/decompose.js:227-237 | `curL` undoes its step: `curL · (M after the step) == M before it` |
| LowerUpper.StepLUndoesAbove | scripts/decompose.js:227-233 | the rows of `curL` up to the pivot row give back the kept rows |
| LowerUpper.StepLUndoesBelow | scripts/decompose.js:227-233 | a row of `curL` below the pivot row gives back the row before its elimination |
| LowerUpper.StageUpper | scripts/decompose.js:219-239 | after k steps, every column before k is zero below the diagonal |
| LowerUpper.LFactorUnitLower | scripts/decompose.js:236-237 | every accumulated L, `logL[col] · curL`, is unit lower-triangular |
| LowerUpper.Factorization | scripts/decompose.js:236-238 | after every step, the accumulated L times the working matrix is the input |
| LowerUpper.LoggedEntry | scripts/decompose.js:235-238 | the j-th logged L and U are the accumulated L and the working matrix after step j |
| LowerUpper.LoggedFactors | scripts/decompose.js:235-238 | the j-th logged L is unit lower-triangular, the j-th U is zero below the diagonal in columns 0..j, and L·U is the input |
| LowerUpper.LoggedLower | scripts/decompose.js:235-237 | every logged L is unit lower-triangular |
| LowerUpper.LoggedUpper | scripts/decompose.js:235-238 | the j-th logged U is zero below the diagonal in columns 0..j |
| LowerUpper.LoggedProduct | scripts/decompose.js:235-238 | every logged pair multiplies back to the input |
| LowerUpper.StepRow | scripts/decompose.js:228-232 | a row with a nonzero entry in the pivot column gets `−(M[row][col]/M[col][col])` times the pivot row, and `curL` records that quotient; other rows are kept |
| LowerUpper.EliminateStep | scripts/decompose.js:219-233 | the elimination loop, in place, is the value-level step, and it returns the value-level `curL` |
| LowerUpper.EliminateRow | scripts/decompose.js:228-233 | one pass changes only row `row` of M and of `curL`, to their values after the step |
| LowerUpper.ScanMaxFirstMaximum | scripts/decompose.js:264-268 | the scan ends on the first row holding the largest value of the scanned rows |
| LowerUpper.MaxRow | scripts/decompose.js:261-268 | `maxRow` lies between the diagonal and the last row |
| LowerUpper.MaxRowFirstMaximum | scripts/decompose.js:261-268 | `maxRow` holds the largest raw value of the column from the diagonal down, and ties keep the lowest row |
| LowerUpper.RowOrderIsPermutation | scripts/decompose.js:255-278 | the row order after any number of swaps is a permutation, so its matrix is a permutation matrix |
| LowerUpper.FindMaxRow | scripts/decompose.js:262-268 | the search loop computes `maxRow` |
| LowerUpper.BuildRowSwaps | scripts/decompose.js:255-278 | the builder returns the identity with its rows in the swapped order |
| LowerUpper.RowSwapStep | scripts/decompose.js:260-276 | one pass swaps row col with `maxRow` in P, extending the row order by one column |
| Decompositions.PivotsNonzero | scripts/decompose.js:222-225 | nonzero pivots up to step k mean steps 0..k−1 can all be carried out |
| Decompositions.PivotsPrefix | scripts/decompose.js:222-225 | nonzero pivots up to a step imply nonzero pivots up to every earlier step |
| Decompositions.Reached | scripts/decompose.js:219-225 | the run stops at the first step whose pivot is zero, or after step n−2 |
| Decompositions.LUStepLogs | scripts/decompose.js:228-238 | a step with a nonzero pivot appends `logL[col]·curL` and the new working matrix to the logs |
| Decompositions.LUStep | scripts/decompose.js:219-239 | one pass with a nonzero pivot advances the working matrix and both logs by one step |
| Decompositions.DecomposeLU | scripts/decompose.js:211-246 | `decomposeLU` returns `LU` of its input, and leaves the caller's matrix as the working matrix of the step where it stopped |
| Decompositions.ReachedSkips | scripts/decompose.js:219-225 | a run with nonzero pivots up to step k stops where the run from k stops |
| Decompositions.LUStops | scripts/decompose.js:219-245 | the loop ends either at a zero pivot, with the sentinel, or after the last step, with the shifted logs |
| Decompositions.LUFailsIffZeroPivot | scripts/decompose.js:222-225 | the sentinel is returned exactly when some step k < n−1 meets a zero pivot |
| Decompositions.LUSucceeds | scripts/decompose.js:235-245 | on success there are n−1 logged pairs; each L is unit lower-triangular, the j-th U is zero below the diagonal in columns 0..j, and L·U is the input |
| Decompositions.LastPivotUnchecked | scripts/decompose.js:219-225 | the last diagonal entry is never checked: the singular `[[1,0],[0,0]]` decomposes |
| Decompositions.GenerateP | scripts/decompose.js:255-278 | `generateP` returns an n×n permutation matrix built from the original matrix, which it does not change |
| Decompositions.RowSwaps | scripts/decompose.js:255-278 | the row-swap matrix of a square matrix is square of the same size |
| Decompositions.DecomposePLU | scripts/decompose.js:284-292 | `decomposePLU` returns `PLU` of its input, and the caller's matrix is not changed |
| Decompositions.PLUResult | scripts/decompose.js:284-292 | the sentinel is propagated exactly when LU of P·M fails; otherwise `["P", P]` is appended, P is a permutation matrix, and every logged pair multiplies to P·M |
| Decompositions.ExampleRowSwaps | scripts/decompose.js:260-276 | the rows are chosen on the original matrix: P·M for `[[0,0,1],[1,5,0],[0,1,1]]` is `[[1,5,0],[0,0,1],[0,1,1]]` |
| Decompositions.PivotingCanFail | scripts/decompose.js:248-253 | contrary to the comment, `decomposePLU` returns the sentinel for an invertible matrix |
| Decompositions.ExampleStalls | scripts/decompose.js:228-233 | the first step leaves `[[1,5,0],[0,0,1],[0,1,1]]` unchanged |
| DraftDecompose.GetRowSwapMatrix | decompose.js:10-34 | `getRowSwapMatrix` returns an n×n permutation matrix, the same row-swap matrix as `generateP` |
| DraftDecompose.Input | decompose.js:44-47 | the matrix eliminated is square of the input's size |
| DraftDecompose.DraftStepLogs | decompose.js:52-65 | one pass appends `logL[col]·curL` and the new working matrix to the logs |
| DraftDecompose.DraftStep | decompose.js:52-65 | one pass advances the working matrix and both logs by one step |
| DraftDecompose.Prepare | decompose.js:44-47 | with `swapRows` it works on a fresh `P·M` and returns `P`; otherwise it works on `M` itself and `P` is absent |
| DraftDecompose.Decompose | decompose.js:41-67 | `decompose` returns the draft's logs and `P`; without `swapRows` the caller's matrix ends as the last logged U, and with it the caller's matrix is untouched |
| DraftDecompose.DraftFactors | decompose.js:41-67 | each log has max(n, 1) entries, opening with the identity and the matrix eliminated; every L is unit lower-triangular, the j-th U is zero below the diagonal in columns 0..j−1, and every pair multiplies to the matrix eliminated (P·M with `swapRows`, P a permutation matrix) |
| DraftDecompose.DraftPair | decompose.js:49-65 | the j-th pair of the logs has a unit lower-triangular L, a U cleared in columns 0..j−1, and L·U equal to the matrix eliminated |
| DraftDecompose.LoggedPair | decompose.js:53-64 | the same for a pair logged by the loop |
| DraftDecompose.DraftDividesByZero | decompose.js:56-59 | with `swapRows`, the invertible `[[0,0,1],[1,5,0],[0,1,1]]` leads the draft to divide by a zero pivot |
| Ldl.OuterProduct | scripts/decompose.js:300-308 | `outerProduct(u, v)[r][c] == u[r]·v[c]` for a `|u|`×`|v|` result |
| Ldl.OuterRankOne | scripts/decompose.js:300-308 | the outer product has rank one: `(u·vᵗ)·x == u·(v·x)` entry by entry |
| Ldl.DotScaled | scripts/decompose.js:336 | scaling a column scales its inner products |
| Ldl.WorkLog | scripts/decompose.js:345 | the log after k rows has k entries |
| Ldl.ZeroAboveDiagonal | scripts/decompose.js:355-359 | the zeroing loop sets every entry above the diagonal to 0 and keeps the rest |
| Ldl.LdlRowFacts | scripts/decompose.js:325-346 | a row with a negligible pivot keeps M and pushes a unit column; otherwise it pushes column/pivot and subtracts the outer product; D and the log are updated |
| Ldl.LdlRow | scripts/decompose.js:325-346 | one pass advances M, the columns of L, D and the log by one row |
| Ldl.DecomposeLDL | scripts/decompose.js:315-362 | `decomposeLDL` returns `LDL` of its input, and the caller's matrix is a value it cannot change |
| LdlReconstruction.StepEntry | scripts/decompose.js:333-337 | entry (i, j) of the next working matrix is `M[i][j] − (M[i][k]/d)·M[j][k]`, or `M[i][j]` for a negligible pivot d |
| LdlReconstruction.WorkingStepEntry | scripts/decompose.js:325-346 | the same, from the working matrix before row k |
| LdlReconstruction.WorkingIsEntries | scripts/decompose.js:325-346 | the working matrices hold the entries of the entry-wise recurrence |
| LdlReconstruction.WorkingIsEntry | scripts/decompose.js:325-346 | one entry of the working matrix follows the recurrence |
| LdlReconstruction.EntrySymmetric | scripts/decompose.js:336-337 | on a symmetric input, entries (i, j) and (j, i) of every working matrix agree |
| LdlReconstruction.KeepsSymmetry | scripts/decompose.js:325-346 | every row keeps a symmetric working matrix symmetric |
| LdlReconstruction.EntryCleared | scripts/decompose.js:331-337 | with exact pivots, once row k is done, every entry in a column j < k is zero |
| LdlReconstruction.ClearsColumns | scripts/decompose.js:325-346 | with exact pivots, rows 0..k−1 clear columns 0..k−1 of a symmetric working matrix |
| LdlReconstruction.EntryAccumulates | scripts/decompose.js:325-346 | each working entry is the input's entry minus everything the rows so far subtracted |
| LdlReconstruction.DiagonalEntries | scripts/decompose.js:318-326 | after k rows, D is diagonal, holds the pivots of those rows, and has 1 elsewhere on the diagonal |
| LdlReconstruction.LdlDiagonal | scripts/decompose.js:326 | the returned D is diagonal and its k-th entry is the working `M[k][k]` at row k |
| LdlReconstruction.LColumnsEntries | scripts/decompose.js:336-341 | the k-th pushed column is the column of row k |
| LdlReconstruction.LEntry | scripts/decompose.js:349-359 | the returned L is zero above the diagonal and, below it, the working entry over the pivot, or the unit column for a negligible pivot |
| LdlReconstruction.LdlUnitLower | scripts/decompose.js:338-359 | the returned L is unit lower-triangular for every input |
| LdlReconstruction.LValueExact | scripts/decompose.js:336 | with exact pivots, each entry of L below a pivot that is not negligible is the working entry over that pivot |
| LdlReconstruction.TermMatches | scripts/decompose.js:336-337 | term j of `L·D·Lᵗ` at (i, m) is what row j subtracted from that entry |
| LdlReconstruction.SandwichEntry | scripts/decompose.js:361 | with a diagonal D, entry (i, m) of `L·(D·Lᵗ)` is row i of L against row m weighted by D |
| LdlReconstruction.RowTerms | scripts/decompose.js:361 | every term of entry (i, m) of the sanity product is the update of its row |
| LdlReconstruction.LdlReconstructs | scripts/decompose.js:361 | for a symmetric matrix whose negligible pivots sit in already-zero columns, the sanity product `L·(D·Lᵗ)` is the input |
| LdlReconstruction.WorkLogEntries | scripts/decompose.js:345 | log entry k is the working matrix once row k is done |
| LdlReconstruction.LdlResult | scripts/decompose.js:315-362 | the result logs n working matrices and returns a unit lower-triangular L and a diagonal D of pivots; with exact pivots on a symmetric matrix, the sanity product is the input |
| LdlReconstruction.ZeroPivotsLoseEntries | scripts/decompose.js:310-311 | contrary to the comment, for `[[0,1],[1,0]]` D is zero and the sanity product is the zero matrix |
| Parser.SkipSpace | scripts/parser.js:20 | the run of `\s` from i ends at the first character that is not white space |
| Parser.DenseSearchFindsBracket | scripts/parser.js:20-23 | `\s*\[` matches somewhere exactly when the text contains `[` |
| Parser.SparseSearchIsDense | scripts/parser.js:26 | wherever `\s*\[\s*\[` matches, `\s*\[` matches too |
| Parser.InputMatrixType | scripts/parser.js:51-61 | "Dense" exactly when the text contains `[`, "Unrecognized matrix type" exactly when it contains none, and never "Sparse" |
| Parser.SparseShadowed | scripts/parser.js:51-57 | `[[1]]` matches the sparse pattern yet is reported as dense |
| Parser.RemoveBracketsKeeps | scripts/parser.js:7 | a character survives the bracket removal exactly when it is not `[`, `]` or `'` |
| Parser.RemoveWhitespaceKeeps | scripts/parser.js:10 | a character survives the white-space removal exactly when it is not white space |
| Parser.CleanKeeps | scripts/parser.js:78 | the cleaned text holds no `[`, `]`, `'` or white space, and keeps every other character of the input |
| Parser.CleanIdempotent | scripts/parser.js:78 | cleaning twice is cleaning once |
| Parser.NothingToRemove | scripts/parser.js:78 | text without brackets and white space is its own cleaning |
| Parser.Split | scripts/parser.js:78 | `split` always yields at least one piece |
| Parser.SplitShape | scripts/parser.js:78 | splitting yields one more piece than there are separators, and no piece holds a separator |
| Parser.JoinSplit | scripts/parser.js:78-82 | joining the pieces with the separator gives the text back |
| Parser.SplitJoin | scripts/parser.js:78-82 | splitting pieces without separators, joined by it, gives the pieces back |
| Parser.RowCells | scripts/parser.js:82-88 | a row has one cell per comma-separated piece |
| Parser.DenseCells | scripts/parser.js:78-82 | the result has one row per `;`-separated piece of the cleaned text |
| Parser.ParseDenseMatrix | scripts/parser.js:69-92 | the in-place row and cell loops produce the cells of the cleaned, split text (strings with `parseToString`, numbers otherwise; an omitted flag means numbers) |
| Parser.DenseShape | scripts/parser.js:78-82 | there are 1 + (number of `;`) rows, each with 1 + (number of `,` in its piece) cells, so neither the matrix nor any row is empty |
| Parser.DenseTextRoundTrip | scripts/parser.js:78-82 | with `parseToString`, joining each row's cells with `,` and the rows with `;` gives back the cleaned text |
| Parser.ParseSparseMatrix | scripts/parser.js:99-113 | `parseSparseMatrix` always returns undefined |

## Left out

- `projectVec` (scripts/decompose.js lines 185-205) is not modelled. It needs square roots, and it calls an undefined global `sqrt`.
- `SparseMatrix.prototype.toString`, scripts/display.js and display.js are not modelled. They format numbers and work with the page (DOM, file reading, drag and drop).
- Floating point is not modelled. All arithmetic is exact `real`, and the code's `=== 0`, `== 0` and `== 1` tests are exact comparisons. Rounding, NaN and infinities have no counterpart.
- The test `D[row][row] + 1 !== 1` in `decomposeLDL` is the parameter `negligible`. The model assumes only that 0 is negligible.
- `parseFloat` is a parameter of the parser. Its conversion rules are not modelled.
- The math.js helpers are modelled only for rectangular arrays: `subset`, `index`, `range` and `squeeze` become column extraction. The special shapes `squeeze` gives a 1×1 matrix are not followed.
- SparseSkyline.SparseMatrix.LDLt: requires every diagonal value it divides by to be nonzero. With a zero divisor the JavaScript goes on with Infinity or NaN values. The frame lemmas and `FactorColumnDefined` say exactly when this happens.
- SparseSkyline.SparseMatrix.LDLt: that the stored L and D satisfy L·D·Lᵗ = A is not proved; the factorisation is specified by its value-level mirror, its frame lemmas and a worked example.
- SparseSkyline.SparseMatrix.constructor: requires well-formed diagonal indices. The JavaScript accepts any arrays.
- SparseSkyline.GetSkyline: with no columns, the JavaScript writes to the array property "-1", which nothing reads. The model returns the empty skyline.
- RowReduction.FindRREF: requires a nonempty matrix, because `M[0].length` fails on an empty one. The same holds for RowReduction.FindNullspace and Decompositions.GenerateP.
- RowReduction.FindNullspace: when the transposed matrix has more columns than rows, the JavaScript updates `I[i][j]` past the end of `I`'s rows and creates NaN entries. The model keeps each row of `I` at its length and leaves those updates out.
- DraftDecompose.Decompose: requires that every pivot it divides by is nonzero (`Runs`). The draft has no zero-pivot check; `DraftDividesByZero` shows an input where this bites.
- Decompositions.GenerateP and DraftDecompose.GetRowSwapMatrix take the matrix as a value, so they cannot change it. The JavaScript only reads it.
- Parser: the patterns `\s*\[` and `\s*\[\s*\[` are written out as the predicates `DenseSearch` and `SparseSearch`. No general regular-expression engine is modelled. The constants `MATRIX_VAL_REGEX_STR`, `DENSE_MATRIX_INPUT_REGEX` and `DENSE_MATRIX_INPUT_VALUE_REGEX` (scripts/parser.js lines 29-36) are not modelled, because nothing uses them.

## Findings

| source | as written | input that shows it | evidently intended | confidence | as-written member | corrected member |
|---|---|---|---|---|---|---|
| scripts/decompose.js:153-157 | the pivot row of M is divided by the pivot, but the same row of the companion I is not | M = [[2,4]]: the returned vector is (−4, 1) and M·v = −4 | apply every row operation to I, so that M·v = 0 for every returned v; here (−2, 1) | not executed | Elimination.UnnormalizedCounterexample | Elimination.NullspaceBasisInKernel |
| scripts/decompose.js:164-168 | rows of I are updated only in their first `width` columns, the number of rows of the original M | M = [[0,1,1]]: (0, 0, 1) is returned and M·v = 1 | update every column of I; here (1,0,0) and (0,−1,1) | not executed | Elimination.WidthLimitCounterexample | Elimination.NullspaceBasisInKernel |
| scripts/decompose.js:173-178 | the rank is read as the run of 1s on the diagonal, which stops early when a pivot lies right of the diagonal | M = [[0,0],[1,2]]: both rows of I are returned, among them (1, 0), and M·v = (0, 1) | take the rows of I from the number of pivots on; here only (−2, 1) | not executed | Elimination.RankScanCounterexample | Elimination.NullspaceBasisInKernel |
| scripts/SparseMatrix.js:159-177 | only `row >= n` and `col >= n` are rejected, so a negative index passes the range test | `getElem(-1, 0)` on any non-empty matrix: the swap makes row −1 lie above the skyline of column 0 and 0 is returned | undefined for every index outside the matrix, as the comment at lines 159-160 says | not executed | SparseSkyline.SparseMatrix.NegativeIndexReadsZero | SparseSkyline.SparseMatrix.GetElemChecked |
