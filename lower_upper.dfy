/**
 * The elimination that both LU engines run (scripts/decompose.js lines 219-239
 * and the draft decompose.js lines 52-65), and the row-order search that both
 * permutation builders run (scripts/decompose.js lines 255-278, decompose.js
 * lines 10-34), as values: one elimination step, the working matrix after `k`
 * steps, and the product of the step matrices after `k` steps; with the proof
 * that every logged pair is a unit lower-triangular `L` and a partly upper-
 * triangular `U` whose product is the input.
 */
module LowerUpper {
  import opened Matrices
  import opened Products

  // ---------------------------------------------------------------------------
  // One elimination step
  // ---------------------------------------------------------------------------

  /**
   * Column `col` can be cleared below row `col` without dividing by zero: any
   * row below that needs clearing finds a nonzero pivot to divide by.
   */
  predicate Eliminable(a: Matrix, n: nat, col: nat)
    requires IsMatrix(a, n, n) && col < n
  {
    forall r :: col < r < n && a[r][col] != 0.0 ==> a[col][col] != 0.0
  }

  /** `curL[row][col]`: the multiple of row `col` taken from row `r`, or 0 when there is nothing to clear. */
  function Multiplier(a: Matrix, n: nat, col: nat, r: nat): real
    requires IsMatrix(a, n, n) && col < r < n && Eliminable(a, n, col)
  {
    if a[r][col] != 0.0 then a[r][col] / a[col][col] else 0.0
  }

  /**
   * The working matrix after step `col`: every row below `col` with a nonzero
   * entry in column `col` gets `-curL[row][col]` times row `col` added to it.
   */
  function EliminateBelow(a: Matrix, n: nat, col: nat): (e: Matrix)
    requires IsMatrix(a, n, n) && col < n && Eliminable(a, n, col)
    ensures IsMatrix(e, n, n)
  {
    seq(n, r requires 0 <= r < n =>
      if col < r && a[r][col] != 0.0 then AddScaled(a[r], -Multiplier(a, n, col, r), a[col]) else a[r])
  }

  /** `curL` after step `col`: the identity with the multipliers in column `col`. */
  function StepL(a: Matrix, n: nat, col: nat): (l: Matrix)
    requires IsMatrix(a, n, n) && col < n && Eliminable(a, n, col)
    ensures IsMatrix(l, n, n)
  {
    seq(n, i requires 0 <= i < n => seq(n, j requires 0 <= j < n =>
      if i == j then 1.0 else if j == col && col < i then Multiplier(a, n, col, i) else 0.0))
  }

  /**
   * What a step does to row `r`: rows up to the pivot row are kept; a row below
   * loses its multiple of the pivot row, which clears its entry in column `col`.
   */
  lemma EliminateBelowRow(a: Matrix, n: nat, col: nat, r: nat)
    requires IsMatrix(a, n, n) && col < n && Eliminable(a, n, col) && r < n
    ensures r <= col ==> EliminateBelow(a, n, col)[r] == a[r]
    ensures col < r ==> EliminateBelow(a, n, col)[r] == SubScaled(a[r], Multiplier(a, n, col, r), a[col])
    ensures col < r ==> EliminateBelow(a, n, col)[r][col] == 0.0
  {
    var e := EliminateBelow(a, n, col);
    if col < r {
      var s := Multiplier(a, n, col, r);
      forall j | 0 <= j < n
        ensures e[r][j] == SubScaled(a[r], s, a[col])[j]
      {
        if a[r][col] != 0.0 {
          assert e[r][j] == a[r][j] + -s * a[col][j];
        } else {
          assert s == 0.0 && e[r][j] == a[r][j];
        }
      }
      if a[r][col] != 0.0 {
        assert s * a[col][col] == a[r][col];
      }
    }
  }

  /** The step matrix is unit lower-triangular. */
  lemma StepLUnitLower(a: Matrix, n: nat, col: nat)
    requires IsMatrix(a, n, n) && col < n && Eliminable(a, n, col)
    ensures IsUnitLowerTriangular(StepL(a, n, col))
  {
  }

  /** `curL` undoes the step: `curL · EliminateBelow(a) == a`. */
  lemma StepLUndoes(a: Matrix, n: nat, col: nat)
    requires IsMatrix(a, n, n) && col < n && Eliminable(a, n, col)
    ensures MatMul(StepL(a, n, col), EliminateBelow(a, n, col), n) == a
  {
    forall i | 0 <= i < n
      ensures VecMat(StepL(a, n, col)[i], EliminateBelow(a, n, col), n) == a[i]
    {
      if i <= col {
        StepLUndoesAbove(a, n, col, i);
      } else {
        StepLUndoesBelow(a, n, col, i);
      }
    }
  }

  /** Rows up to the pivot row: `curL` has the unit row there and the step kept the row. */
  lemma StepLUndoesAbove(a: Matrix, n: nat, col: nat, i: nat)
    requires IsMatrix(a, n, n) && col < n && Eliminable(a, n, col) && i <= col
    ensures VecMat(StepL(a, n, col)[i], EliminateBelow(a, n, col), n) == a[i]
  {
    var l, e := StepL(a, n, col), EliminateBelow(a, n, col);
    EliminateBelowRow(a, n, col, i);
    assert l[i] == Eye(n)[i];
    VecMatUnit(n, i, e, n);
  }

  /** A row below the pivot row gets its multiple of the pivot row back. */
  lemma StepLUndoesBelow(a: Matrix, n: nat, col: nat, i: nat)
    requires IsMatrix(a, n, n) && col < i < n && Eliminable(a, n, col)
    ensures VecMat(StepL(a, n, col)[i], EliminateBelow(a, n, col), n) == a[i]
  {
    var l, e := StepL(a, n, col), EliminateBelow(a, n, col);
    EliminateBelowRow(a, n, col, i);
    EliminateBelowRow(a, n, col, col);
    VecMatPair(l[i], e, n, col, i);
    forall j | 0 <= j < n
      ensures VecMat(l[i], e, n)[j] == a[i][j]
    {
    }
  }

  // ---------------------------------------------------------------------------
  // The run of steps
  // ---------------------------------------------------------------------------

  /** The number of elimination steps, `col < M.length - 1`. */
  function Steps(n: nat): nat {
    if n == 0 then 0 else n - 1
  }

  /** Steps `0 .. k-1` can all be carried out without dividing by zero. */
  predicate Reachable(a0: Matrix, n: nat, k: nat)
    requires IsMatrix(a0, n, n) && k <= n
    decreases k, 0
  {
    k == 0 || (Reachable(a0, n, k - 1) && Eliminable(Stage(a0, n, k - 1), n, k - 1))
  }

  /** The working matrix `M` after `k` steps (`logU[k]` before the shift). */
  function Stage(a0: Matrix, n: nat, k: nat): (a: Matrix)
    requires IsMatrix(a0, n, n) && k <= n && Reachable(a0, n, k)
    ensures IsMatrix(a, n, n)
    decreases k, 1
  {
    if k == 0 then a0 else EliminateBelow(Stage(a0, n, k - 1), n, k - 1)
  }

  /** `logL[k]`: the product `curL_0 · ... · curL_{k-1}` of the step matrices. */
  function LFactor(a0: Matrix, n: nat, k: nat): (l: Matrix)
    requires IsMatrix(a0, n, n) && k <= n && Reachable(a0, n, k)
    ensures IsMatrix(l, n, n)
  {
    if k == 0 then Eye(n) else MatMul(LFactor(a0, n, k - 1), StepL(Stage(a0, n, k - 1), n, k - 1), n)
  }

  /** The L matrices logged by steps `0 .. k-1`. */
  function Lowers(a0: Matrix, n: nat, k: nat): (log: seq<Matrix>)
    requires IsMatrix(a0, n, n) && k <= n && Reachable(a0, n, k)
    ensures |log| == k && forall i :: 0 <= i < k ==> IsMatrix(log[i], n, n)
  {
    if k == 0 then [] else Lowers(a0, n, k - 1) + [LFactor(a0, n, k)]
  }

  /** The U matrices logged by steps `0 .. k-1`. */
  function Uppers(a0: Matrix, n: nat, k: nat): (log: seq<Matrix>)
    requires IsMatrix(a0, n, n) && k <= n && Reachable(a0, n, k)
    ensures |log| == k && forall i :: 0 <= i < k ==> IsMatrix(log[i], n, n)
  {
    if k == 0 then [] else Uppers(a0, n, k - 1) + [Stage(a0, n, k)]
  }

  /** A run that gets through `k` steps gets through every earlier step. */
  lemma {:induction false} ReachablePrefix(a0: Matrix, n: nat, j: nat, k: nat)
    requires IsMatrix(a0, n, n) && j <= k <= n && Reachable(a0, n, k)
    ensures Reachable(a0, n, j)
    decreases k - j
  {
    if j < k {
      ReachablePrefix(a0, n, j, k - 1);
    }
  }

  /** After `k` steps, every column before `k` is zero below the diagonal. */
  lemma {:induction false} StageUpper(a0: Matrix, n: nat, k: nat)
    requires IsMatrix(a0, n, n) && k <= n && Reachable(a0, n, k)
    ensures IsUpperTriangularUpTo(Stage(a0, n, k), k)
  {
    if k > 0 {
      StageUpper(a0, n, k - 1);
      var a, e := Stage(a0, n, k - 1), Stage(a0, n, k);
      forall i, j | 0 <= j < i < n && j < k
        ensures e[i][j] == 0.0
      {
        EliminateBelowRow(a, n, k - 1, i);
        if j < k - 1 && k - 1 < i {
          assert a[k - 1][j] == 0.0 && a[i][j] == 0.0;
        }
      }
    }
  }

  /** Every L on the way is unit lower-triangular. */
  lemma {:induction false} LFactorUnitLower(a0: Matrix, n: nat, k: nat)
    requires IsMatrix(a0, n, n) && k <= n && Reachable(a0, n, k)
    ensures IsUnitLowerTriangular(LFactor(a0, n, k))
  {
    if k > 0 {
      LFactorUnitLower(a0, n, k - 1);
      StepLUnitLower(Stage(a0, n, k - 1), n, k - 1);
      UnitLowerProduct(LFactor(a0, n, k - 1), StepL(Stage(a0, n, k - 1), n, k - 1));
    }
  }

  /** Every logged pair multiplies back to the input: `logL[k] · logU[k] == M`. */
  lemma {:induction false} Factorization(a0: Matrix, n: nat, k: nat)
    requires IsMatrix(a0, n, n) && k <= n && Reachable(a0, n, k)
    ensures MatMul(LFactor(a0, n, k), Stage(a0, n, k), n) == a0
  {
    if k == 0 {
      EyeTimes(a0, n);
    } else {
      var l, a := LFactor(a0, n, k - 1), Stage(a0, n, k - 1);
      var c := StepL(a, n, k - 1);
      MatMulAssociative(l, c, EliminateBelow(a, n, k - 1), n);
      StepLUndoes(a, n, k - 1);
      Factorization(a0, n, k - 1);
    }
  }

  /** The `j`-th logged pair is the pair after step `j`. */
  lemma {:induction false} LoggedEntry(a0: Matrix, n: nat, k: nat, j: nat)
    requires IsMatrix(a0, n, n) && j < k <= n && Reachable(a0, n, k)
    ensures Reachable(a0, n, j + 1)
    ensures Lowers(a0, n, k)[j] == LFactor(a0, n, j + 1)
    ensures Uppers(a0, n, k)[j] == Stage(a0, n, j + 1)
  {
    if j + 1 < k {
      LoggedEntry(a0, n, k - 1, j);
    }
  }

  /**
   * The logs' promise: the `j`-th logged L is unit lower-triangular, the `j`-th
   * logged U is zero below the diagonal in columns `0 .. j`, and L·U is the input.
   */
  lemma LoggedFactors(a0: Matrix, n: nat, k: nat, j: nat)
    requires IsMatrix(a0, n, n) && j < k <= n && Reachable(a0, n, k)
    ensures IsUnitLowerTriangular(Lowers(a0, n, k)[j])
    ensures IsUpperTriangularUpTo(Uppers(a0, n, k)[j], j + 1)
    ensures MatMul(Lowers(a0, n, k)[j], Uppers(a0, n, k)[j], n) == a0
  {
    LoggedLower(a0, n, k);
    LoggedUpper(a0, n, k);
    LoggedProduct(a0, n, k);
  }

  /** Every logged L is unit lower-triangular. */
  lemma {:induction false} LoggedLower(a0: Matrix, n: nat, k: nat)
    requires IsMatrix(a0, n, n) && k <= n && Reachable(a0, n, k)
    ensures forall j :: 0 <= j < k ==> IsUnitLowerTriangular(Lowers(a0, n, k)[j])
  {
    if k > 0 {
      var prev, l := Lowers(a0, n, k - 1), LFactor(a0, n, k);
      assert Lowers(a0, n, k) == prev + [l];
      LoggedLower(a0, n, k - 1);
      LFactorUnitLower(a0, n, k);
    }
  }

  /** The `j`-th logged U is zero below the diagonal in columns `0 .. j`. */
  lemma {:induction false} LoggedUpper(a0: Matrix, n: nat, k: nat)
    requires IsMatrix(a0, n, n) && k <= n && Reachable(a0, n, k)
    ensures forall j :: 0 <= j < k ==> IsUpperTriangularUpTo(Uppers(a0, n, k)[j], j + 1)
  {
    if k > 0 {
      var prev, u := Uppers(a0, n, k - 1), Stage(a0, n, k);
      assert Uppers(a0, n, k) == prev + [u];
      LoggedUpper(a0, n, k - 1);
      StageUpper(a0, n, k);
    }
  }

  /** Every logged pair multiplies back to the input. */
  lemma {:induction false} LoggedProduct(a0: Matrix, n: nat, k: nat)
    requires IsMatrix(a0, n, n) && k <= n && Reachable(a0, n, k)
    ensures forall j :: 0 <= j < k ==> MatMul(Lowers(a0, n, k)[j], Uppers(a0, n, k)[j], n) == a0
  {
    if k > 0 {
      var l, u := Lowers(a0, n, k - 1), Uppers(a0, n, k - 1);
      assert Lowers(a0, n, k) == l + [LFactor(a0, n, k)] && Uppers(a0, n, k) == u + [Stage(a0, n, k)];
      LoggedProduct(a0, n, k - 1);
      Factorization(a0, n, k);
    }
  }

  /** Row `r` below the pivot row after the step, and row `r` of `curL`. */
  lemma StepRow(a: Matrix, n: nat, col: nat, r: nat)
    requires IsMatrix(a, n, n) && col < r < n && Eliminable(a, n, col)
    ensures EliminateBelow(a, n, col)[r] ==
      if a[r][col] != 0.0 then AddScaled(a[r], -(a[r][col] / a[col][col]), a[col]) else a[r]
    ensures StepL(a, n, col)[r] ==
      if a[r][col] != 0.0 then Eye(n)[r][col := a[r][col] / a[col][col]] else Eye(n)[r]
  {
    var l := StepL(a, n, col);
    forall j | 0 <= j < n
      ensures l[r][j] == (if a[r][col] != 0.0 then Eye(n)[r][col := a[r][col] / a[col][col]] else Eye(n)[r])[j]
    {
    }
  }

  /**
   * One elimination step in place (scripts/decompose.js lines 219-233, the same
   * loop as decompose.js lines 53-61): clear column `col` below row `col`, and
   * build the step matrix `curL` on the way.
   */
  method EliminateStep(m: array<seq<real>>, n: nat, col: nat) returns (curL: Matrix)
    requires IsMatrix(m[..], n, n) && col < n && Eliminable(m[..], n, col)
    modifies m
    ensures m[..] == EliminateBelow(old(m[..]), n, col)
    ensures curL == StepL(old(m[..]), n, col)
  {
    ghost var a := m[..];
    ghost var e, l := EliminateBelow(a, n, col), StepL(a, n, col);
    curL := Eye(n);
    var row := col + 1;
    while row < n
      invariant col < row <= n && m.Length == n && |curL| == n
      invariant forall r :: 0 <= r < n ==> m[r] == if r < row then e[r] else a[r]
      invariant forall r :: 0 <= r < n ==> curL[r] == if r < row then l[r] else Eye(n)[r]
    {
      curL := EliminateRow(m, n, col, row, curL, a);
      row := row + 1;
    }
    assert m[..] == e;
  }

  /** One pass of the loop of scripts/decompose.js lines 228-233: clear the entry of row `row` in column `col` and record its multiplier. */
  method EliminateRow(m: array<seq<real>>, n: nat, col: nat, row: nat, curL: Matrix, ghost a: Matrix)
    returns (curL': Matrix)
    requires IsMatrix(a, n, n) && col < row < n && Eliminable(a, n, col) && m.Length == n
    requires m[row] == a[row] && m[col] == a[col] && |curL| == n && curL[row] == Eye(n)[row]
    modifies m
    ensures m[..] == old(m[..])[row := EliminateBelow(a, n, col)[row]]
    ensures curL' == curL[row := StepL(a, n, col)[row]]
  {
    StepRow(a, n, col, row);
    curL' := curL;
    if m[row][col] != 0.0 {
      curL' := curL'[row := curL'[row][col := m[row][col] / m[col][col]]];
      m[row] := AddScaled(m[row], -curL'[row][col], m[col]);
    }
  }

  // ---------------------------------------------------------------------------
  // The row order of the permutation builders
  // ---------------------------------------------------------------------------

  /**
   * The search for the largest entry of column `c` from row `row` down:
   * `best` holds the row of the largest value so far, and only a strictly
   * larger value replaces it.
   */
  function ScanMax(a: Matrix, c: nat, row: nat, best: nat): (r: nat)
    requires forall i :: 0 <= i < |a| ==> c < |a[i]|
    requires best <= row && (row < |a| ==> best < |a|)
    ensures best <= r && (best < |a| ==> r < |a|)
    decreases |a| - row
  {
    if row >= |a| then best
    else ScanMax(a, c, row + 1, if a[row][c] > a[best][c] then row else best)
  }

  /** `maxRow` for column `c`: the search starts at the diagonal. */
  function MaxRow(a: Matrix, c: nat): (r: nat)
    requires forall i :: 0 <= i < |a| ==> c < |a[i]|
    ensures c <= r && (c < |a| ==> r < |a|) && (|a| <= c ==> r == c)
  {
    ScanMax(a, c, c, c)
  }

  /** The scan ends on the first row holding the largest value of the scanned rows. */
  lemma {:induction false} ScanMaxFirstMaximum(a: Matrix, c: nat, row: nat, best: nat)
    requires forall i :: 0 <= i < |a| ==> c < |a[i]|
    requires c <= best <= row <= |a| && best < |a|
    requires forall i :: c <= i < row ==> a[i][c] <= a[best][c]
    requires forall i :: c <= i < best ==> a[i][c] < a[best][c]
    ensures forall i :: c <= i < |a| ==> a[i][c] <= a[ScanMax(a, c, row, best)][c]
    ensures forall i :: c <= i < ScanMax(a, c, row, best) ==> a[i][c] < a[ScanMax(a, c, row, best)][c]
    decreases |a| - row
  {
    if row < |a| {
      ScanMaxFirstMaximum(a, c, row + 1, if a[row][c] > a[best][c] then row else best);
    }
  }

  /**
   * `maxRow` is the first row, from the diagonal down, holding the largest
   * value of column `c` there: ties keep the lowest row.
   */
  lemma MaxRowFirstMaximum(a: Matrix, c: nat)
    requires forall i :: 0 <= i < |a| ==> c < |a[i]|
    requires c < |a|
    ensures forall i :: c <= i < |a| ==> a[i][c] <= a[MaxRow(a, c)][c]
    ensures forall i :: c <= i < MaxRow(a, c) ==> a[i][c] < a[MaxRow(a, c)][c]
  {
    ScanMaxFirstMaximum(a, c, c, c);
  }

  /**
   * The order of the identity's rows after the swaps for columns `0 .. k-1`:
   * row `k-1` is exchanged with `maxRow` when they differ. The search always
   * looks at the original matrix, never at the rows already swapped.
   */
  function RowOrder(a: Matrix, w: nat, k: nat): (p: seq<nat>)
    requires IsMatrix(a, |a|, w) && k <= w
    ensures |p| == |a|
  {
    if k == 0 then Identity(|a|)
    else
      var p, r := RowOrder(a, w, k - 1), MaxRow(a, k - 1);
      if r != k - 1 then Swap(p, k - 1, r) else p
  }

  /** The row order is a permutation, so the matrix built from it is a permutation matrix. */
  lemma {:induction false} RowOrderIsPermutation(a: Matrix, w: nat, k: nat)
    requires IsMatrix(a, |a|, w) && k <= w
    ensures IsPermutation(RowOrder(a, w, k))
    ensures IsPermutationMatrix(PermutationMatrix(RowOrder(a, w, k)))
  {
    if k == 0 {
      IdentityPermutation(|a|);
    } else {
      RowOrderIsPermutation(a, w, k - 1);
      var r := MaxRow(a, k - 1);
      if r != k - 1 {
        SwapPermutation(RowOrder(a, w, k - 1), k - 1, r);
      }
    }
    PermutationMatrixIsPermutationMatrix(RowOrder(a, w, k));
  }

  /** The search for `maxRow` (scripts/decompose.js lines 262-268, decompose.js lines 17-24). */
  method FindMaxRow(a: Matrix, col: nat) returns (maxRow: nat)
    requires forall i :: 0 <= i < |a| ==> col < |a[i]|
    ensures maxRow == MaxRow(a, col)
  {
    maxRow := col;
    var row := col;
    while row < |a|
      invariant col <= maxRow <= row && (row < |a| ==> maxRow < |a|)
      invariant ScanMax(a, col, row, maxRow) == MaxRow(a, col)
      decreases |a| - row
    {
      if a[row][col] > a[maxRow][col] {
        maxRow := row;
      }
      row := row + 1;
    }
  }

  /**
   * The permutation builder (scripts/decompose.js lines 255-278 with `w` the
   * width, decompose.js lines 10-34 with `w` the height): start from the
   * identity and swap its rows `col` and `maxRow` for every column `col < w`.
   */
  method BuildRowSwaps(a: Matrix, w: nat) returns (p: Matrix)
    requires IsMatrix(a, |a|, w)
    ensures p == PermutationMatrix(RowOrder(a, w, w))
  {
    var n := |a|;
    var e := Eye(n);
    var pa := new seq<real>[n](i requires 0 <= i < n => e[i]);
    IdentityPermutation(n);
    var col := 0;
    while col < w
      invariant col <= w && pa.Length == n
      invariant pa[..] == PermutationMatrix(RowOrder(a, w, col))
    {
      RowSwapStep(pa, a, w, col);
      col := col + 1;
    }
    p := pa[..];
  }

  /**
   * One pass of the builder's loop (scripts/decompose.js lines 261-275,
   * decompose.js lines 17-32): find the row holding the largest value of
   * column `col` and swap it with row `col`.
   */
  method RowSwapStep(pa: array<seq<real>>, a: Matrix, w: nat, col: nat)
    requires IsMatrix(a, |a|, w) && col < w && pa.Length == |a|
    requires pa[..] == PermutationMatrix(RowOrder(a, w, col))
    modifies pa
    ensures pa[..] == PermutationMatrix(RowOrder(a, w, col + 1))
  {
    var maxRow := FindMaxRow(a, col);
    if maxRow != col {
      SwapPermutationMatrix(RowOrder(a, w, col), col, maxRow);
      var temp := pa[col];
      pa[col] := pa[maxRow];
      pa[maxRow] := temp;
    }
  }
}
