/**
 * `decomposeLU`, `generateP` and `decomposePLU` (scripts/decompose.js lines
 * 207-292): the LU elimination with its zero-pivot sentinel and its logs, the
 * row-swap matrix chosen by the largest entry of each column, and LU of the
 * row-swapped matrix.
 */
module Decompositions {
  import opened Matrices
  import opened Products
  import opened Results
  import opened LowerUpper

  // ---------------------------------------------------------------------------
  // decomposeLU
  // ---------------------------------------------------------------------------

  /** Every pivot `M[col][col]` met by steps `0 .. k-1` is nonzero. */
  predicate PivotsNonzero(a0: Matrix, n: nat, k: nat)
    requires IsMatrix(a0, n, n) && k <= n
    ensures PivotsNonzero(a0, n, k) ==> Reachable(a0, n, k)
  {
    k == 0 || (PivotsNonzero(a0, n, k - 1) && Stage(a0, n, k - 1)[k - 1][k - 1] != 0.0)
  }

  /** Nonzero pivots up to step `k` are nonzero pivots up to every earlier step. */
  lemma {:induction false} PivotsPrefix(a0: Matrix, n: nat, j: nat, k: nat)
    requires IsMatrix(a0, n, n) && j <= k <= n
    ensures PivotsNonzero(a0, n, k) ==> PivotsNonzero(a0, n, j)
    decreases k - j
  {
    if j < k {
      PivotsPrefix(a0, n, j, k - 1);
    }
  }

  /**
   * What `decomposeLU` returns for the square matrix `a0`: the sentinel when a
   * pivot of steps `0 .. n-2` is zero; otherwise the L and U logs without
   * their initial identity and input entries (the `shift`s of lines 242-243).
   */
  function LU(a0: Matrix): Decomposition
    requires IsSquare(a0)
  {
    var n := |a0|;
    if PivotsNonzero(a0, n, Steps(n)) then
      Decomposition([Log("L", Lowers(a0, n, Steps(n))), Log("U", Uppers(a0, n, Steps(n)))], [])
    else
      NoDecomposition
  }

  /** The step at which `decomposeLU` stops from step `k` on: the first zero pivot, or the end. */
  function Reached(a0: Matrix, n: nat, k: nat): (s: nat)
    requires IsMatrix(a0, n, n) && k <= Steps(n) && PivotsNonzero(a0, n, k)
    ensures k <= s <= Steps(n) && PivotsNonzero(a0, n, s)
    ensures s < Steps(n) ==> Stage(a0, n, s)[s][s] == 0.0
    decreases Steps(n) - k
  {
    if k < Steps(n) && Stage(a0, n, k)[k][k] != 0.0 then Reached(a0, n, k + 1) else k
  }

  /** How one successful step extends the run and its logs. */
  lemma LUStepLogs(a0: Matrix, n: nat, col: nat)
    requires IsMatrix(a0, n, n) && col < Steps(n) && PivotsNonzero(a0, n, col)
    requires Stage(a0, n, col)[col][col] != 0.0
    ensures PivotsNonzero(a0, n, col + 1) && Eliminable(Stage(a0, n, col), n, col)
    ensures ([Eye(n)] + Lowers(a0, n, col))[col] == LFactor(a0, n, col)
    ensures Lowers(a0, n, col + 1) ==
      Lowers(a0, n, col) + [MatMul(LFactor(a0, n, col), StepL(Stage(a0, n, col), n, col), n)]
    ensures Uppers(a0, n, col + 1) == Uppers(a0, n, col) + [EliminateBelow(Stage(a0, n, col), n, col)]
  {
  }

  /** One pass of the loop of lines 219-239 with a nonzero pivot: eliminate and log. */
  method LUStep(m: array<seq<real>>, n: nat, col: nat, ghost a0: Matrix, logL: seq<Matrix>, logU: seq<Matrix>)
    returns (logL': seq<Matrix>, logU': seq<Matrix>)
    requires IsMatrix(a0, n, n) && m.Length == n && col < Steps(n) && PivotsNonzero(a0, n, col)
    requires m[..] == Stage(a0, n, col) && m[col][col] != 0.0
    requires logL == [Eye(n)] + Lowers(a0, n, col) && logU == [a0] + Uppers(a0, n, col)
    modifies m
    ensures PivotsNonzero(a0, n, col + 1)
    ensures m[..] == Stage(a0, n, col + 1)
    ensures logL' == [Eye(n)] + Lowers(a0, n, col + 1) && logU' == [a0] + Uppers(a0, n, col + 1)
  {
    LUStepLogs(a0, n, col);
    var curL := EliminateStep(m, n, col);
    logL' := logL + [MatMul(logL[col], curL, n)];
    logU' := logU + [m[..]];
  }

  /**
   * `decomposeLU` (lines 211-246) on the matrix held in `m`, which it changes
   * in place: the result is `LU` of the input, and `m` is left as the working
   * matrix of the step where the run stopped.
   */
  method DecomposeLU(m: array<seq<real>>) returns (r: Decomposition)
    requires IsSquare(m[..])
    modifies m
    ensures r == LU(old(m[..]))
    ensures m[..] == Stage(old(m[..]), m.Length, Reached(old(m[..]), m.Length, 0))
  {
    ghost var a0 := m[..];
    var n := m.Length;
    var logL, logU := [Eye(n)], [m[..]];
    var col, failed := 0, false;
    while col + 1 < n && !failed
      invariant col <= Steps(n) && PivotsNonzero(a0, n, col)
      invariant m[..] == Stage(a0, n, col)
      invariant logL == [Eye(n)] + Lowers(a0, n, col)
      invariant logU == [a0] + Uppers(a0, n, col)
      invariant failed ==> col < Steps(n) && Stage(a0, n, col)[col][col] == 0.0
      decreases n - col, if failed then 0 else 1
    {
      if m[col][col] == 0.0 {
        failed := true;
      } else {
        logL, logU := LUStep(m, n, col, a0, logL, logU);
        col := col + 1;
      }
    }
    LUStops(a0, n, col, failed);
    if failed {
      r := NoDecomposition;
    } else {
      assert logL[1..] == Lowers(a0, n, col) && logU[1..] == Uppers(a0, n, col);
      r := Decomposition([Log("L", logL[1..]), Log("U", logU[1..])], []);
    }
  }

  /** A run with nonzero pivots up to step `k` stops where the run from step `k` stops. */
  lemma {:induction false} ReachedSkips(a0: Matrix, n: nat, k: nat)
    requires IsMatrix(a0, n, n) && k <= Steps(n) && PivotsNonzero(a0, n, k)
    ensures Reached(a0, n, 0) == Reached(a0, n, k)
  {
    if k > 0 {
      ReachedSkips(a0, n, k - 1);
    }
  }

  /** Where the loop of lines 219-239 ends: at a zero pivot, with the sentinel, or after the last step, with the logs. */
  lemma LUStops(a0: Matrix, n: nat, col: nat, failed: bool)
    requires IsMatrix(a0, n, n) && |a0| == n && col <= Steps(n) && PivotsNonzero(a0, n, col)
    requires failed ==> col < Steps(n) && Stage(a0, n, col)[col][col] == 0.0
    requires !failed ==> col + 1 >= n
    ensures Reached(a0, n, 0) == col
    ensures LU(a0) == if failed then NoDecomposition
      else Decomposition([Log("L", Lowers(a0, n, col)), Log("U", Uppers(a0, n, col))], [])
  {
    ReachedSkips(a0, n, col);
    if failed {
      PivotsPrefix(a0, n, col + 1, Steps(n));
      assert !PivotsNonzero(a0, n, Steps(n));
    } else {
      assert col == Steps(n);
    }
  }

  /** Step `k < n-1` is reached, and its pivot is zero. */
  predicate ZeroPivotAt(a0: Matrix, n: nat, k: nat)
    requires IsMatrix(a0, n, n)
  {
    k < Steps(n) && PivotsNonzero(a0, n, k) && Stage(a0, n, k)[k][k] == 0.0
  }

  /**
   * The sentinel is returned exactly when some step `k < n-1` meets a zero
   * pivot after the steps before it went through.
   */
  lemma LUFailsIffZeroPivot(a0: Matrix)
    requires IsSquare(a0)
    ensures LU(a0).NoDecomposition? <==> exists k: nat :: ZeroPivotAt(a0, |a0|, k)
  {
    var n := |a0|;
    if !PivotsNonzero(a0, n, Steps(n)) {
      var k := Reached(a0, n, 0);
      assert ZeroPivotAt(a0, n, k);
    } else {
      forall k: nat | ZeroPivotAt(a0, n, k)
        ensures false
      {
        PivotsPrefix(a0, n, k + 1, Steps(n));
      }
    }
  }

  /**
   * On success `decomposeLU` returns an L log and a U log of `n-1` entries
   * each; the `j`-th L is unit lower-triangular, the `j`-th U is zero below the
   * diagonal in columns `0 .. j`, and their product is the input.
   */
  lemma LUSucceeds(a0: Matrix)
    requires IsSquare(a0) && LU(a0).Decomposition?
    ensures |LU(a0).steps| == 2 && LU(a0).extras == []
    ensures LU(a0).steps[0].name == "L" && LU(a0).steps[1].name == "U"
    ensures |LU(a0).steps[0].steps| == |LU(a0).steps[1].steps| == Steps(|a0|)
    ensures forall j :: 0 <= j < Steps(|a0|) ==>
      var l, u := LU(a0).steps[0].steps[j], LU(a0).steps[1].steps[j];
      IsMatrix(l, |a0|, |a0|) && IsMatrix(u, |a0|, |a0|) &&
      IsUnitLowerTriangular(l) && IsUpperTriangularUpTo(u, j + 1) && MatMul(l, u, |a0|) == a0
  {
    var n := |a0|;
    forall j | 0 <= j < Steps(n)
      ensures IsUnitLowerTriangular(Lowers(a0, n, Steps(n))[j])
      ensures IsUpperTriangularUpTo(Uppers(a0, n, Steps(n))[j], j + 1)
      ensures MatMul(Lowers(a0, n, Steps(n))[j], Uppers(a0, n, Steps(n))[j], n) == a0
    {
      LoggedFactors(a0, n, Steps(n), j);
    }
  }

  /**
   * The last diagonal entry is never checked: the singular `[[1,0],[0,0]]`
   * still decomposes, with the singular U `[[1,0],[0,0]]`.
   */
  lemma LastPivotUnchecked()
    ensures LU([[1.0, 0.0], [0.0, 0.0]]) ==
      Decomposition([Log("L", [Eye(2)]), Log("U", [[[1.0, 0.0], [0.0, 0.0]]])], [])
  {
    var a0: Matrix := [[1.0, 0.0], [0.0, 0.0]];
    assert PivotsNonzero(a0, 2, 1);
    assert Stage(a0, 2, 1) == a0 by {
      EliminateBelowRow(a0, 2, 0, 1);
    }
    var l := StepL(a0, 2, 0);
    assert l[0] == Eye(2)[0] && l[1] == Eye(2)[1];
    assert l == Eye(2);
    EyeTimes(Eye(2), 2);
    assert LFactor(a0, 2, 1) == Eye(2);
    assert Lowers(a0, 2, 1) == [Eye(2)] && Uppers(a0, 2, 1) == [a0];
  }

  // ---------------------------------------------------------------------------
  // generateP and decomposePLU
  // ---------------------------------------------------------------------------

  /**
   * `generateP` (lines 255-278): the identity with rows swapped for each column
   * of `m` (`M[0].length` columns); `m` itself is only read. The result is a
   * permutation matrix.
   */
  method GenerateP(m: Matrix) returns (p: Matrix)
    requires |m| > 0 && IsMatrix(m, |m|, Width(m))
    ensures p == PermutationMatrix(RowOrder(m, Width(m), Width(m)))
    ensures IsSquare(p) && |p| == |m| && IsPermutationMatrix(p)
  {
    p := BuildRowSwaps(m, |m[0]|);
    RowOrderIsPermutation(m, Width(m), Width(m));
  }

  /** The row-swap matrix of a square matrix. */
  function RowSwaps(m: Matrix): (p: Matrix)
    requires IsSquare(m)
    ensures IsMatrix(p, |m|, |m|)
  {
    PermutationMatrix(RowOrder(m, |m|, |m|))
  }

  /**
   * What `decomposePLU` returns: the sentinel when LU of `P·M` fails, otherwise
   * LU's result with `["P", P]` appended to the extras.
   */
  function PLU(m: Matrix): Decomposition
    requires IsSquare(m)
  {
    var p := RowSwaps(m);
    var lu := LU(MatMul(p, m, |m|));
    if lu.NoDecomposition? then NoDecomposition else Decomposition(lu.steps, lu.extras + [Named("P", p)])
  }

  /** `decomposePLU` (lines 284-292): LU of a fresh `P·M`; the caller's matrix is not touched. */
  method DecomposePLU(m: Matrix) returns (r: Decomposition)
    requires IsSquare(m) && |m| > 0
    ensures r == PLU(m)
  {
    var p := GenerateP(m);
    var pm := MatMul(p, m, |m|);
    var work := new seq<real>[|m|](i requires 0 <= i < |m| => pm[i]);
    assert work[..] == pm;
    r := DecomposeLU(work);
    if r == NoDecomposition {
      return;
    }
    r := Decomposition(r.steps, r.extras + [Named("P", p)]);
  }

  /**
   * `decomposePLU` fails exactly when LU of `P·M` does; on success its extras
   * are the single `["P", P]` with `P` a permutation matrix, and every logged
   * pair multiplies to `P·M`.
   */
  lemma PLUResult(m: Matrix)
    requires IsSquare(m)
    ensures PLU(m).NoDecomposition? <==> LU(MatMul(RowSwaps(m), m, |m|)).NoDecomposition?
    ensures PLU(m).Decomposition? ==>
      PLU(m).extras == [Named("P", RowSwaps(m))] && IsPermutationMatrix(RowSwaps(m)) &&
      |PLU(m).steps| == 2 && |PLU(m).steps[0].steps| == |PLU(m).steps[1].steps| == Steps(|m|) &&
      forall j :: 0 <= j < Steps(|m|) ==>
        MatMul(PLU(m).steps[0].steps[j], PLU(m).steps[1].steps[j], |m|) == MatMul(RowSwaps(m), m, |m|)
  {
    var pm := MatMul(RowSwaps(m), m, |m|);
    RowOrderIsPermutation(m, |m|, |m|);
    if LU(pm).Decomposition? {
      LUSucceeds(pm);
    }
  }

  /**
   * The rows are chosen on the original matrix, not on the rows being
   * eliminated: for `[[0,0,1],[1,5,0],[0,1,1]]` column 0 moves row 1 up and
   * columns 1 and 2 move nothing, so `P·M == [[1,5,0],[0,0,1],[0,1,1]]`,
   * whose second pivot is 0 with a nonzero entry below it.
   */
  lemma ExampleRowSwaps()
    ensures var m: Matrix := [[0.0, 0.0, 1.0], [1.0, 5.0, 0.0], [0.0, 1.0, 1.0]];
      MatMul(RowSwaps(m), m, 3) == [[1.0, 5.0, 0.0], [0.0, 0.0, 1.0], [0.0, 1.0, 1.0]]
  {
    var m: Matrix := [[0.0, 0.0, 1.0], [1.0, 5.0, 0.0], [0.0, 1.0, 1.0]];
    assert MaxRow(m, 0) == 1 && MaxRow(m, 1) == 1 && MaxRow(m, 2) == 2;
    var q := RowOrder(m, 3, 3);
    assert q == [1, 0, 2];
    var pm := MatMul(RowSwaps(m), m, 3);
    forall i | 0 <= i < 3
      ensures pm[i] == m[q[i]]
    {
      assert RowSwaps(m)[i] == Eye(3)[q[i]];
      VecMatUnit(3, q[i], m, 3);
    }
  }

  /**
   * So `P·M` need not have an LU factorisation: the invertible
   * `[[0,0,1],[1,5,0],[0,1,1]]` makes `decomposePLU` return the sentinel.
   */
  lemma PivotingCanFail()
    ensures PLU([[0.0, 0.0, 1.0], [1.0, 5.0, 0.0], [0.0, 1.0, 1.0]]) == NoDecomposition
    ensures MatMul([[0.0, 0.0, 1.0], [1.0, 5.0, 0.0], [0.0, 1.0, 1.0]],
                   [[5.0, 1.0, -5.0], [-1.0, 0.0, 1.0], [1.0, 0.0, 0.0]], 3) == Eye(3)
  {
    var pm: Matrix := [[1.0, 5.0, 0.0], [0.0, 0.0, 1.0], [0.0, 1.0, 1.0]];
    ExampleRowSwaps();
    ExampleStalls();
    assert !PivotsNonzero(pm, 3, 2);
    ExampleInverse();
  }

  /** The first step leaves `[[1,5,0],[0,0,1],[0,1,1]]` as it is: there is nothing to clear below its pivot. */
  lemma ExampleStalls()
    ensures var pm: Matrix := [[1.0, 5.0, 0.0], [0.0, 0.0, 1.0], [0.0, 1.0, 1.0]];
      IsMatrix(pm, 3, 3) && Reachable(pm, 3, 1) && Stage(pm, 3, 1) == pm
  {
    var pm: Matrix := [[1.0, 5.0, 0.0], [0.0, 0.0, 1.0], [0.0, 1.0, 1.0]];
    assert Reachable(pm, 3, 1);
    EliminateBelowRow(pm, 3, 0, 0);
    EliminateBelowRow(pm, 3, 0, 1);
    EliminateBelowRow(pm, 3, 0, 2);
    assert Stage(pm, 3, 1) == EliminateBelow(pm, 3, 0);
  }

  /** `[[0,0,1],[1,5,0],[0,1,1]]` is invertible. */
  lemma ExampleInverse()
    ensures MatMul([[0.0, 0.0, 1.0], [1.0, 5.0, 0.0], [0.0, 1.0, 1.0]],
                   [[5.0, 1.0, -5.0], [-1.0, 0.0, 1.0], [1.0, 0.0, 0.0]], 3) == Eye(3)
  {
    var m: Matrix := [[0.0, 0.0, 1.0], [1.0, 5.0, 0.0], [0.0, 1.0, 1.0]];
    var inv: Matrix := [[5.0, 1.0, -5.0], [-1.0, 0.0, 1.0], [1.0, 0.0, 0.0]];
    forall i | 0 <= i < 3
      ensures MatMul(m, inv, 3)[i] == Eye(3)[i]
    {
      forall j | 0 <= j < 3
        ensures MatMul(m, inv, 3)[i][j] == Eye(3)[i][j]
      {
        DotOfThree(m[i], Column(inv, j));
      }
    }
  }

  /** An inner product of length three, written out. */
  lemma DotOfThree(u: seq<real>, v: seq<real>)
    requires |u| == |v| == 3
    ensures Dot(u, v) == u[0] * v[0] + u[1] * v[1] + u[2] * v[2]
  {
    assert Dot(u[2..], v[2..]) == u[2] * v[2] + Dot(u[3..], v[3..]);
  }
}
