/**
 * The draft engine decompose.js: `getRowSwapMatrix` (lines 10-34) and
 * `decompose` (lines 41-67). It runs the same elimination as `decomposeLU`,
 * but never checks a pivot, keeps the identity and the input at the head of
 * its logs, and works either on the caller's matrix in place or, with
 * `swapRows`, on a fresh `P·M`.
 *
 * A zero pivot with a nonzero entry below it makes the JavaScript divide by
 * zero and go on with infinite and NaN entries; the model requires every step
 * to be free of that.
 */
module DraftDecompose {
  import opened Wrappers
  import opened Matrices
  import opened LowerUpper
  import opened Decompositions

  /** `[logL, logU, P]`; `P` is `undefined` unless rows were swapped. */
  datatype DraftResult = DraftResult(logL: seq<Matrix>, logU: seq<Matrix>, p: Option<Matrix>)

  /** `getRowSwapMatrix` (lines 10-34): the identity with its rows swapped column by column. */
  method GetRowSwapMatrix(m: Matrix) returns (p: Matrix)
    requires IsSquare(m)
    ensures p == RowSwaps(m)
    ensures IsMatrix(p, |m|, |m|) && IsPermutationMatrix(p)
  {
    p := BuildRowSwaps(m, |m|);
    RowOrderIsPermutation(m, |m|, |m|);
  }

  /** The matrix the elimination runs on: `P·M` with `swapRows`, else `M` itself. */
  function Input(m: Matrix, swapRows: bool): (w: Matrix)
    requires IsSquare(m)
    ensures IsMatrix(w, |m|, |m|)
  {
    if swapRows then MatMul(RowSwaps(m), m, |m|) else m
  }

  /** Every step of the draft's run divides only by nonzero pivots. */
  predicate Runs(m: Matrix, swapRows: bool)
    requires IsSquare(m)
  {
    Reachable(Input(m, swapRows), |m|, Steps(|m|))
  }

  /** What `decompose` returns: both logs open with the identity and the input. */
  function Draft(m: Matrix, swapRows: bool): DraftResult
    requires IsSquare(m) && Runs(m, swapRows)
  {
    var n, w := |m|, Input(m, swapRows);
    DraftResult([Eye(n)] + Lowers(w, n, Steps(n)), [w] + Uppers(w, n, Steps(n)),
      if swapRows then Some(RowSwaps(m)) else None)
  }

  /** How one pass of the loop of lines 52-65 extends the logs. */
  lemma DraftStepLogs(w: Matrix, n: nat, col: nat)
    requires IsMatrix(w, n, n) && col < Steps(n) && Reachable(w, n, Steps(n))
    ensures Reachable(w, n, col + 1) && Eliminable(Stage(w, n, col), n, col)
    ensures ([Eye(n)] + Lowers(w, n, col))[col] == LFactor(w, n, col)
    ensures Lowers(w, n, col + 1) == Lowers(w, n, col) + [MatMul(LFactor(w, n, col), StepL(Stage(w, n, col), n, col), n)]
    ensures Uppers(w, n, col + 1) == Uppers(w, n, col) + [EliminateBelow(Stage(w, n, col), n, col)]
  {
    ReachablePrefix(w, n, col + 1, Steps(n));
  }

  /** One pass of the loop of lines 52-65: eliminate below the pivot and log. */
  method DraftStep(work: array<seq<real>>, n: nat, col: nat, ghost w: Matrix, logL: seq<Matrix>, logU: seq<Matrix>)
    returns (logL': seq<Matrix>, logU': seq<Matrix>)
    requires IsMatrix(w, n, n) && work.Length == n && col < Steps(n) && Reachable(w, n, Steps(n))
    requires Reachable(w, n, col) && work[..] == Stage(w, n, col)
    requires logL == [Eye(n)] + Lowers(w, n, col) && logU == [w] + Uppers(w, n, col)
    modifies work
    ensures Reachable(w, n, col + 1) && work[..] == Stage(w, n, col + 1)
    ensures logL' == [Eye(n)] + Lowers(w, n, col + 1) && logU' == [w] + Uppers(w, n, col + 1)
  {
    DraftStepLogs(w, n, col);
    var curL := EliminateStep(work, n, col);
    logL' := logL + [MatMul(logL[col], curL, n)];
    logU' := logU + [work[..]];
  }

  /** Lines 44-47: the matrix to eliminate is `M` itself, or a fresh copy of `P·M` with `swapRows`. */
  method Prepare(m: array<seq<real>>, swapRows: bool) returns (work: array<seq<real>>, p: Option<Matrix>)
    requires IsSquare(m[..])
    ensures work.Length == m.Length && work[..] == Input(m[..], swapRows)
    ensures swapRows ==> fresh(work) && p == Some(RowSwaps(m[..]))
    ensures !swapRows ==> work == m && p == None
  {
    work, p := m, None;
    if swapRows {
      var q := GetRowSwapMatrix(m[..]);
      var pm := MatMul(q, m[..], m.Length);
      work := new seq<real>[m.Length](i requires 0 <= i < m.Length => pm[i]);
      assert work[..] == pm;
      p := Some(q);
    }
  }

  /**
   * `decompose` (lines 41-67). Without `swapRows` it eliminates in the
   * caller's matrix, which ends as the last logged U; with `swapRows` it
   * works on a fresh `P·M` and leaves the caller's matrix alone.
   */
  method Decompose(m: array<seq<real>>, swapRows: bool) returns (r: DraftResult)
    requires IsSquare(m[..]) && Runs(m[..], swapRows)
    modifies m
    ensures r == Draft(old(m[..]), swapRows)
    ensures m[..] == if swapRows then old(m[..]) else Stage(old(m[..]), m.Length, Steps(m.Length))
  {
    ghost var m0 := m[..];
    var n := m.Length;
    var work, p := Prepare(m, swapRows);
    ghost var w := Input(m0, swapRows);
    var logL, logU := [Eye(n)], [work[..]];
    var col := 0;
    while col + 1 < n
      invariant col <= Steps(n) && work.Length == n && Reachable(w, n, col)
      invariant work[..] == Stage(w, n, col)
      invariant logL == [Eye(n)] + Lowers(w, n, col) && logU == [w] + Uppers(w, n, col)
      invariant swapRows ==> fresh(work) && m[..] == m0
      invariant !swapRows ==> work == m
    {
      logL, logU := DraftStep(work, n, col, w, logL, logU);
      col := col + 1;
    }
    r := DraftResult(logL, logU, p);
  }

  // ---------------------------------------------------------------------------
  // What the logs hold
  // ---------------------------------------------------------------------------

  /**
   * The logs of `decompose`: `max(n, 1)` entries each, the identity and the
   * matrix eliminated (`P·M` with `swapRows`) first; every logged L is unit
   * lower triangular, the `j`-th U is zero below the diagonal in columns
   * `0 .. j-1`, and every pair multiplies back to the matrix eliminated.
   * With `swapRows`, `P` is a permutation matrix.
   */
  lemma DraftFactors(m: Matrix, swapRows: bool)
    requires IsSquare(m) && Runs(m, swapRows)
    ensures var r, n, w := Draft(m, swapRows), |m|, Input(m, swapRows);
      && |r.logL| == |r.logU| == Steps(n) + 1
      && r.logL[0] == Eye(n) && r.logU[0] == w
      && (forall j :: 0 <= j <= Steps(n) ==>
        IsMatrix(r.logL[j], n, n) && IsMatrix(r.logU[j], n, n) &&
        IsUnitLowerTriangular(r.logL[j]) && IsUpperTriangularUpTo(r.logU[j], j) &&
        MatMul(r.logL[j], r.logU[j], n) == w)
      && (r.p.Some? <==> swapRows)
      && (swapRows ==> IsPermutationMatrix(r.p.value) && w == MatMul(r.p.value, m, n))
  {
    var r, n, w := Draft(m, swapRows), |m|, Input(m, swapRows);
    assert r.logL == [Eye(n)] + Lowers(w, n, Steps(n)) && r.logU == [w] + Uppers(w, n, Steps(n));
    forall j | 0 <= j <= Steps(n)
      ensures IsMatrix(r.logL[j], n, n) && IsMatrix(r.logU[j], n, n)
      ensures IsUnitLowerTriangular(r.logL[j]) && IsUpperTriangularUpTo(r.logU[j], j)
      ensures MatMul(r.logL[j], r.logU[j], n) == w
    {
      DraftPair(w, n, j);
    }
    RowOrderIsPermutation(m, n, n);
  }

  /** The `j`-th pair of the logs: a unit lower-triangular L, a U cleared in columns `0 .. j-1`, and L·U the matrix eliminated. */
  lemma DraftPair(w: Matrix, n: nat, j: nat)
    requires IsMatrix(w, n, n) && Reachable(w, n, Steps(n)) && j <= Steps(n)
    ensures var l, u := ([Eye(n)] + Lowers(w, n, Steps(n)))[j], ([w] + Uppers(w, n, Steps(n)))[j];
      && IsMatrix(l, n, n) && IsMatrix(u, n, n)
      && IsUnitLowerTriangular(l) && IsUpperTriangularUpTo(u, j)
      && MatMul(l, u, n) == w
  {
    var l, u := Lowers(w, n, Steps(n)), Uppers(w, n, Steps(n));
    if j == 0 {
      assert ([Eye(n)] + l)[0] == Eye(n) && ([w] + u)[0] == w;
      EyeTimes(w, n);
      assert IsUnitLowerTriangular(Eye(n));
    } else {
      assert ([Eye(n)] + l)[j] == l[j - 1] && ([w] + u)[j] == u[j - 1];
      LoggedPair(w, n, j - 1);
    }
  }

  /** A pair taken from the logs proper, past the opening identity and input. */
  lemma LoggedPair(w: Matrix, n: nat, j: nat)
    requires IsMatrix(w, n, n) && Reachable(w, n, Steps(n)) && j < Steps(n)
    ensures var l, u := Lowers(w, n, Steps(n))[j], Uppers(w, n, Steps(n))[j];
      && IsMatrix(l, n, n) && IsMatrix(u, n, n)
      && IsUnitLowerTriangular(l) && IsUpperTriangularUpTo(u, j + 1)
      && MatMul(l, u, n) == w
  {
    LoggedFactors(w, n, Steps(n), j);
  }

  /**
   * The draft has no zero-pivot check, and the row swaps need not help: on the
   * invertible `[[0,0,1],[1,5,0],[0,1,1]]` with `swapRows` the second step
   * divides by a zero pivot.
   */
  lemma DraftDividesByZero()
    ensures var m: Matrix := [[0.0, 0.0, 1.0], [1.0, 5.0, 0.0], [0.0, 1.0, 1.0]];
      IsSquare(m) && !Runs(m, true)
  {
    var m: Matrix := [[0.0, 0.0, 1.0], [1.0, 5.0, 0.0], [0.0, 1.0, 1.0]];
    var pm: Matrix := [[1.0, 5.0, 0.0], [0.0, 0.0, 1.0], [0.0, 1.0, 1.0]];
    ExampleRowSwaps();
    ExampleStalls();
    assert Input(m, true) == pm;
    assert Stage(pm, 3, 1)[2][1] == 1.0 && Stage(pm, 3, 1)[1][1] == 0.0;
    assert !Eliminable(Stage(pm, 3, 1), 3, 1);
  }
}
