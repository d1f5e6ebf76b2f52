/**
 * What `decomposeLDL` (scripts/decompose.js lines 315-362) achieves on a
 * symmetric matrix: every row keeps the working matrix symmetric and clears
 * its column, D is diagonal, L is unit lower triangular, and, when every
 * negligible pivot sits in a column that is already zero, the returned
 * "sanity" product `L·(D·Lᵗ)` is the input again.
 *
 * The proofs work on the entries of the working matrix, given by the
 * recurrence `Entry`; `WorkingIsEntry` ties it to the matrices `Working`.
 */
module LdlReconstruction {
  import opened Matrices
  import opened Results
  import opened Products
  import opened Ldl

  // ---------------------------------------------------------------------------
  // The entries of the working matrix
  // ---------------------------------------------------------------------------

  /** `(x / d)·y`, or nothing when `d` is negligible. */
  function Quotient(x: real, d: real, y: real, negligible: real -> bool): real
    requires negligible(0.0)
  {
    if negligible(d) then 0.0 else (x / d) * y
  }

  /**
   * Entry `(i, j)` of the working matrix once rows `0 .. k-1` are done: row
   * `k-1` subtracts `(a[i][k-1] / d)·a[j][k-1]`, unless its pivot `d` is negligible.
   */
  function Entry(a0: Matrix, n: nat, negligible: real -> bool, k: nat, i: nat, j: nat): real
    requires IsMatrix(a0, n, n) && negligible(0.0) && k <= n && i < n && j < n
    decreases k, 0
  {
    if k == 0 then a0[i][j]
    else Entry(a0, n, negligible, k - 1, i, j) - Update(a0, n, negligible, k - 1, i, j)
  }

  /** What row `k` subtracts from entry `(i, j)`. */
  function Update(a0: Matrix, n: nat, negligible: real -> bool, k: nat, i: nat, j: nat): real
    requires IsMatrix(a0, n, n) && negligible(0.0) && k < n && i < n && j < n
    decreases k, 1
  {
    Quotient(Entry(a0, n, negligible, k, i, k), Entry(a0, n, negligible, k, k, k),
      Entry(a0, n, negligible, k, j, k), negligible)
  }

  /** The pivot of row `k`: the working matrix's diagonal entry when the row is reached. */
  function Pivot(a0: Matrix, n: nat, negligible: real -> bool, k: nat): real
    requires IsMatrix(a0, n, n) && negligible(0.0) && k < n
  {
    Entry(a0, n, negligible, k, k, k)
  }

  /** One entry of the next working matrix: `math.subtract(M, outerProduct(c / d, c))` for column `c` of `M`, or `M` itself. */
  lemma StepEntry(a: Matrix, n: nat, negligible: real -> bool, k: nat, i: nat, j: nat)
    requires IsMatrix(a, n, n) && negligible(0.0) && k < n && i < n && j < n
    ensures RowStep(a, n, negligible, k)[i][j] == a[i][j] - Quotient(a[i][k], a[k][k], a[j][k], negligible)
  {
    var d := a[k][k];
    if !negligible(d) {
      var c := Column(a, k);
      var u := DivideBy(c, d);
      var ui, cj := u[i], c[j];
      assert Outer(u, c)[i] == Scale(ui, c);
      assert Outer(u, c)[i][j] == ui * cj;
    }
  }

  /** Entry `(i, j)` once row `k` is done, from the working matrix before it. */
  lemma WorkingStepEntry(a0: Matrix, n: nat, negligible: real -> bool, k: nat, i: nat, j: nat)
    requires IsMatrix(a0, n, n) && negligible(0.0) && k < n && i < n && j < n
    ensures var w := Working(a0, n, negligible, k);
      Working(a0, n, negligible, k + 1)[i][j] == w[i][j] - Quotient(w[i][k], w[k][k], w[j][k], negligible)
  {
    var w := Working(a0, n, negligible, k);
    StepEntry(w, n, negligible, k, i, j);
    assert Working(a0, n, negligible, k + 1) == RowStep(w, n, negligible, k);
  }

  /** The working matrices of `decomposeLDL` hold the entries of the recurrence. */
  lemma {:induction false} WorkingIsEntries(a0: Matrix, n: nat, negligible: real -> bool, k: nat)
    requires IsMatrix(a0, n, n) && negligible(0.0) && k <= n
    ensures forall i, j :: 0 <= i < n && 0 <= j < n ==> Working(a0, n, negligible, k)[i][j] == Entry(a0, n, negligible, k, i, j)
  {
    if k > 0 {
      WorkingIsEntries(a0, n, negligible, k - 1);
      var w := Working(a0, n, negligible, k - 1);
      forall i, j | 0 <= i < n && 0 <= j < n
        ensures Working(a0, n, negligible, k)[i][j] == Entry(a0, n, negligible, k, i, j)
      {
        WorkingStepEntry(a0, n, negligible, k - 1, i, j);
        assert Update(a0, n, negligible, k - 1, i, j) == Quotient(w[i][k - 1], w[k - 1][k - 1], w[j][k - 1], negligible);
      }
    }
  }

  /** One entry of `WorkingIsEntries`. */
  lemma WorkingIsEntry(a0: Matrix, n: nat, negligible: real -> bool, k: nat, i: nat, j: nat)
    requires IsMatrix(a0, n, n) && negligible(0.0) && k <= n && i < n && j < n
    ensures Working(a0, n, negligible, k)[i][j] == Entry(a0, n, negligible, k, i, j)
  {
    WorkingIsEntries(a0, n, negligible, k);
  }

  // ---------------------------------------------------------------------------
  // Symmetry and cleared columns
  // ---------------------------------------------------------------------------

  /** The quotient is symmetric in its two outer arguments. */
  lemma QuotientSwap(x: real, d: real, y: real, negligible: real -> bool)
    requires negligible(0.0)
    ensures Quotient(x, d, y, negligible) == Quotient(y, d, x, negligible)
  {
    if !negligible(d) {
      assert (x / d) * y == (x * y) / d == (y / d) * x;
    }
  }

  /** On a symmetric input, entries `(i, j)` and `(j, i)` stay equal. */
  lemma {:induction false} EntrySymmetric(a0: Matrix, n: nat, negligible: real -> bool, k: nat, i: nat, j: nat)
    requires IsMatrix(a0, n, n) && negligible(0.0) && k <= n && i < n && j < n && IsSymmetric(a0)
    ensures Entry(a0, n, negligible, k, i, j) == Entry(a0, n, negligible, k, j, i)
  {
    if k > 0 {
      EntrySymmetric(a0, n, negligible, k - 1, i, j);
      QuotientSwap(Entry(a0, n, negligible, k - 1, i, k - 1), Entry(a0, n, negligible, k - 1, k - 1, k - 1),
        Entry(a0, n, negligible, k - 1, j, k - 1), negligible);
    }
  }

  /** Every row keeps a symmetric working matrix symmetric. */
  lemma KeepsSymmetry(a0: Matrix, n: nat, negligible: real -> bool, k: nat)
    requires IsMatrix(a0, n, n) && negligible(0.0) && k <= n && IsSymmetric(a0)
    ensures IsSymmetric(Working(a0, n, negligible, k))
  {
    forall i, j | 0 <= i < n && 0 <= j < n
      ensures Working(a0, n, negligible, k)[i][j] == Working(a0, n, negligible, k)[j][i]
    {
      WorkingIsEntry(a0, n, negligible, k, i, j);
      WorkingIsEntry(a0, n, negligible, k, j, i);
      EntrySymmetric(a0, n, negligible, k, i, j);
    }
  }

  /** Column `j` of the working matrix is zero once rows `0 .. k-1` are done. */
  predicate ColumnZero(a0: Matrix, n: nat, negligible: real -> bool, k: nat, j: nat)
    requires IsMatrix(a0, n, n) && negligible(0.0) && k <= n && j < n
  {
    forall i :: 0 <= i < n ==> Entry(a0, n, negligible, k, i, j) == 0.0
  }

  /** Row `k` finds its pivot negligible only where its column is already zero. */
  predicate ExactAt(a0: Matrix, n: nat, negligible: real -> bool, k: nat)
    requires IsMatrix(a0, n, n) && negligible(0.0) && k < n
  {
    negligible(Pivot(a0, n, negligible, k)) ==> ColumnZero(a0, n, negligible, k, k)
  }

  /** No row of the run skips a column that still holds a nonzero entry. */
  predicate ExactPivots(a0: Matrix, n: nat, negligible: real -> bool)
    requires IsMatrix(a0, n, n) && negligible(0.0)
  {
    forall k :: 0 <= k < n ==> ExactAt(a0, n, negligible, k)
  }

  /** Once row `k` is done, entry `(i, j)` of every column `j < k` is zero. */
  lemma {:induction false} EntryCleared(a0: Matrix, n: nat, negligible: real -> bool, k: nat, i: nat, j: nat)
    requires IsMatrix(a0, n, n) && negligible(0.0) && j < k <= n && i < n && IsSymmetric(a0)
    requires ExactPivots(a0, n, negligible)
    ensures Entry(a0, n, negligible, k, i, j) == 0.0
  {
    var x, d := Entry(a0, n, negligible, k - 1, i, k - 1), Pivot(a0, n, negligible, k - 1);
    if j == k - 1 {
      if negligible(d) {
        assert ExactAt(a0, n, negligible, k - 1);
        assert ColumnZero(a0, n, negligible, k - 1, k - 1);
      } else {
        assert (x / d) * d == x;
      }
    } else {
      EntryCleared(a0, n, negligible, k - 1, i, j);
      EntryCleared(a0, n, negligible, k - 1, k - 1, j);
      EntrySymmetric(a0, n, negligible, k - 1, j, k - 1);
      var y := Entry(a0, n, negligible, k - 1, j, k - 1);
      assert y == 0.0;
      assert Quotient(x, d, y, negligible) == 0.0;
    }
  }

  /** Column `j` of `a` is zero. */
  predicate ColumnCleared(a: Matrix, n: nat, j: nat)
    requires IsMatrix(a, n, n) && j < n
  {
    forall i :: 0 <= i < n ==> a[i][j] == 0.0
  }

  /** Once row `k` is done, columns `0 .. k-1` of a symmetric working matrix are zero. */
  lemma ClearsColumns(a0: Matrix, n: nat, negligible: real -> bool, k: nat)
    requires IsMatrix(a0, n, n) && negligible(0.0) && k <= n && IsSymmetric(a0)
    requires ExactPivots(a0, n, negligible)
    ensures forall j :: 0 <= j < k ==> ColumnCleared(Working(a0, n, negligible, k), n, j)
  {
    forall j, i | 0 <= j < k && 0 <= i < n
      ensures Working(a0, n, negligible, k)[i][j] == 0.0
    {
      WorkingIsEntry(a0, n, negligible, k, i, j);
      EntryCleared(a0, n, negligible, k, i, j);
    }
  }

  /** Everything rows `0 .. k-1` subtract from entry `(i, j)`. */
  function Accumulated(a0: Matrix, n: nat, negligible: real -> bool, k: nat, i: nat, j: nat): real
    requires IsMatrix(a0, n, n) && negligible(0.0) && k <= n && i < n && j < n
  {
    if k == 0 then 0.0 else Accumulated(a0, n, negligible, k - 1, i, j) + Update(a0, n, negligible, k - 1, i, j)
  }

  /** An entry of the working matrix is the input's entry minus everything the rows so far subtracted. */
  lemma {:induction false} EntryAccumulates(a0: Matrix, n: nat, negligible: real -> bool, k: nat, i: nat, j: nat)
    requires IsMatrix(a0, n, n) && negligible(0.0) && k <= n && i < n && j < n
    ensures Entry(a0, n, negligible, k, i, j) == a0[i][j] - Accumulated(a0, n, negligible, k, i, j)
  {
    if k > 0 {
      EntryAccumulates(a0, n, negligible, k - 1, i, j);
    }
  }

  // ---------------------------------------------------------------------------
  // The factors
  // ---------------------------------------------------------------------------

  /** After rows `0 .. k-1`, D is diagonal and holds the pivots of those rows; the rest is 1. */
  lemma {:induction false} DiagonalEntries(a0: Matrix, n: nat, negligible: real -> bool, k: nat)
    requires IsMatrix(a0, n, n) && negligible(0.0) && k <= n
    ensures forall i, j :: 0 <= i < n && 0 <= j < n ==>
      DiagonalAfter(a0, n, negligible, k)[i][j] == if i != j then 0.0 else if i < k then Pivot(a0, n, negligible, i) else 1.0
  {
    if k > 0 {
      DiagonalEntries(a0, n, negligible, k - 1);
      WorkingIsEntry(a0, n, negligible, k - 1, k - 1, k - 1);
    }
  }

  /** The returned D is diagonal, with pivot `k` as its `k`-th entry. */
  lemma LdlDiagonal(a0: Matrix, negligible: real -> bool)
    requires IsSquare(a0) && negligible(0.0)
    ensures var d := DiagonalAfter(a0, |a0|, negligible, |a0|);
      && IsSquare(d) && |d| == |a0| && IsDiagonal(d)
      && forall k :: 0 <= k < |a0| ==> d[k][k] == Pivot(a0, |a0|, negligible, k)
  {
    DiagonalEntries(a0, |a0|, negligible, |a0|);
  }

  /** The columns pushed so far are the columns of the rows so far. */
  lemma {:induction false} LColumnsEntries(a0: Matrix, n: nat, negligible: real -> bool, k: nat)
    requires IsMatrix(a0, n, n) && negligible(0.0) && k <= n
    ensures forall j :: 0 <= j < k ==> LColumns(a0, n, negligible, k)[j] == LColumn(a0, n, negligible, j)
  {
    if k > 0 {
      LColumnsEntries(a0, n, negligible, k - 1);
    }
  }

  /** Entry `(i, j)` of L: zero above the diagonal; below, the working entry over the pivot, or the unit column. */
  function LValue(a0: Matrix, n: nat, negligible: real -> bool, i: nat, j: nat): real
    requires IsMatrix(a0, n, n) && negligible(0.0) && i < n && j < n
  {
    var d := Pivot(a0, n, negligible, j);
    if i < j then 0.0
    else if negligible(d) then (if i == j then 1.0 else 0.0)
    else Entry(a0, n, negligible, j, i, j) / d
  }

  /** The returned L holds the values `LValue`. */
  lemma LEntry(a0: Matrix, n: nat, negligible: real -> bool, i: nat, j: nat)
    requires IsMatrix(a0, n, n) && negligible(0.0) && i < n && j < n
    ensures LdlL(a0, n, negligible)[i][j] == LValue(a0, n, negligible, i, j)
  {
    var cs := LColumns(a0, n, negligible, n);
    LColumnsEntries(a0, n, negligible, n);
    SquareWidth(cs, n);
    assert Transpose(cs)[i][j] == cs[j][i];
    WorkingIsEntry(a0, n, negligible, j, i, j);
    WorkingIsEntry(a0, n, negligible, j, j, j);
  }

  /** The returned L is unit lower triangular, whatever the input. */
  lemma LdlUnitLower(a0: Matrix, negligible: real -> bool)
    requires IsSquare(a0) && negligible(0.0)
    ensures var l := LdlL(a0, |a0|, negligible); IsSquare(l) && IsUnitLowerTriangular(l)
  {
    var n, l := |a0|, LdlL(a0, |a0|, negligible);
    forall i, j | 0 <= i < n && 0 <= j < n
      ensures l[i][j] == LValue(a0, n, negligible, i, j)
    {
      LEntry(a0, n, negligible, i, j);
    }
  }

  /** With exact pivots, the entries of L above the diagonal are the zero working entries over the pivot. */
  lemma LValueExact(a0: Matrix, n: nat, negligible: real -> bool, i: nat, j: nat)
    requires IsMatrix(a0, n, n) && negligible(0.0) && i < n && j < n && IsSymmetric(a0)
    requires ExactPivots(a0, n, negligible)
    ensures var d := Pivot(a0, n, negligible, j);
      !negligible(d) ==> LValue(a0, n, negligible, i, j) == Entry(a0, n, negligible, j, i, j) / d
  {
    if i < j {
      EntrySymmetric(a0, n, negligible, j, i, j);
      EntryCleared(a0, n, negligible, j, j, i);
    }
  }

  // ---------------------------------------------------------------------------
  // The sanity product
  // ---------------------------------------------------------------------------

  /** `p·(d·q)` is the quotient `(x / d)·y` when `p`, `q` are `x`, `y` over a pivot `d` that is not negligible, and 0 when `d` is 0. */
  lemma TermArithmetic(p: real, d: real, q: real, x: real, y: real, negligible: real -> bool)
    requires negligible(0.0)
    requires negligible(d) ==> d == 0.0
    requires !negligible(d) ==> p == x / d && q == y / d
    ensures p * (d * q) == Quotient(x, d, y, negligible)
  {
    if !negligible(d) {
      assert d * (y / d) == y;
    }
  }

  /** Term `j` of `L·D·Lᵗ` at `(i, m)` is what row `j` subtracted from that entry. */
  lemma TermMatches(a0: Matrix, n: nat, negligible: real -> bool, i: nat, j: nat, m: nat)
    requires IsMatrix(a0, n, n) && negligible(0.0) && i < n && j < n && m < n && IsSymmetric(a0)
    requires ExactPivots(a0, n, negligible)
    ensures LValue(a0, n, negligible, i, j) * (Pivot(a0, n, negligible, j) * LValue(a0, n, negligible, m, j))
      == Update(a0, n, negligible, j, i, m)
  {
    var d := Pivot(a0, n, negligible, j);
    LValueExact(a0, n, negligible, i, j);
    LValueExact(a0, n, negligible, m, j);
    if negligible(d) {
      assert ExactAt(a0, n, negligible, j);
      assert ColumnZero(a0, n, negligible, j, j);
    }
    TermArithmetic(LValue(a0, n, negligible, i, j), d, LValue(a0, n, negligible, m, j),
      Entry(a0, n, negligible, j, i, j), Entry(a0, n, negligible, j, m, j), negligible);
  }

  /** Term `j` of an inner product. */
  function Term(u: seq<real>, v: seq<real>, j: nat): real
    requires |u| == |v| && j < |u|
  {
    u[j] * v[j]
  }

  /** The inner product summed from the back: the first `k` terms. */
  function PrefixDot(u: seq<real>, v: seq<real>, k: nat): real
    requires |u| == |v| && k <= |u|
  {
    if k == 0 then 0.0 else PrefixDot(u, v, k - 1) + Term(u, v, k - 1)
  }

  /** Peeling the first term off a prefix sum. */
  lemma {:induction false} PrefixDotCons(u: seq<real>, v: seq<real>, k: nat)
    requires |u| == |v| && 0 < k <= |u|
    ensures PrefixDot(u, v, k) == u[0] * v[0] + PrefixDot(u[1..], v[1..], k - 1)
  {
    if k > 1 {
      PrefixDotCons(u, v, k - 1);
      assert u[1..][k - 2] == u[k - 1] && v[1..][k - 2] == v[k - 1];
    }
  }

  /** `Dot` summed from the front equals the sum from the back. */
  lemma {:induction false} DotIsPrefixDot(u: seq<real>, v: seq<real>)
    requires |u| == |v|
    ensures Dot(u, v) == PrefixDot(u, v, |u|)
    decreases |u|
  {
    if |u| > 0 {
      DotIsPrefixDot(u[1..], v[1..]);
      PrefixDotCons(u, v, |u|);
    }
  }

  /** Row `r` weighted by the diagonal of `d`. */
  function Weighted(d: Matrix, r: seq<real>): (w: seq<real>)
    requires IsSquare(d) && |r| == |d|
    ensures |w| == |r|
  {
    seq(|r|, j requires 0 <= j < |r| => d[j][j] * r[j])
  }

  /** With a diagonal `d`, entry `(i, m)` of `L·(D·Lᵗ)` is the inner product of rows `i` and `m` weighted by `d`. */
  lemma SandwichEntry(l: Matrix, d: Matrix, n: nat, i: nat, m: nat)
    requires IsMatrix(l, n, n) && Width(l) == n && IsMatrix(d, n, n) && IsDiagonal(d) && i < n && m < n
    ensures MatMul(l, MatMul(d, Transpose(l), n), n)[i][m] == Dot(l[i], Weighted(d, l[m]))
  {
    var lt := Transpose(l);
    var x := MatMul(d, lt, n);
    forall j | 0 <= j < n
      ensures Column(x, m)[j] == Weighted(d, l[m])[j]
    {
      var col := Column(lt, m);
      DotSingle(d[j], col, j);
      assert col[j] == l[m][j];
    }
    assert Column(x, m) == Weighted(d, l[m]);
  }

  /** Prefix sums whose terms are the updates of the rows add up to what those rows subtracted. */
  lemma {:induction false} SumMatches(a0: Matrix, n: nat, negligible: real -> bool, i: nat, m: nat,
                                      u: seq<real>, v: seq<real>, k: nat)
    requires IsMatrix(a0, n, n) && negligible(0.0) && i < n && m < n && k <= n && |u| == |v| == n
    requires forall j :: 0 <= j < n ==> Term(u, v, j) == Update(a0, n, negligible, j, i, m)
    ensures PrefixDot(u, v, k) == Accumulated(a0, n, negligible, k, i, m)
  {
    if k > 0 {
      SumMatches(a0, n, negligible, i, m, u, v, k - 1);
      assert Term(u, v, k - 1) == Update(a0, n, negligible, k - 1, i, m);
    }
  }

  /** Term `j` of row `i` against row `m` weighted by the diagonal of `d`. */
  lemma WeightedTerm(l: Matrix, d: Matrix, n: nat, i: nat, m: nat, j: nat)
    requires IsMatrix(l, n, n) && IsMatrix(d, n, n) && i < n && m < n && j < n
    ensures Term(l[i], Weighted(d, l[m]), j) == l[i][j] * (d[j][j] * l[m][j])
  {
  }

  /** Every term of row `i` of the sanity product at column `m` is the update of its row. */
  lemma RowTerms(a0: Matrix, n: nat, negligible: real -> bool, i: nat, m: nat)
    requires IsMatrix(a0, n, n) && negligible(0.0) && i < n && m < n && IsSymmetric(a0)
    requires ExactPivots(a0, n, negligible)
    ensures var l, d := LdlL(a0, n, negligible), DiagonalAfter(a0, n, negligible, n);
      forall j :: 0 <= j < n ==> Term(l[i], Weighted(d, l[m]), j) == Update(a0, n, negligible, j, i, m)
  {
    var l, d := LdlL(a0, n, negligible), DiagonalAfter(a0, n, negligible, n);
    DiagonalEntries(a0, n, negligible, n);
    forall j | 0 <= j < n
      ensures Term(l[i], Weighted(d, l[m]), j) == Update(a0, n, negligible, j, i, m)
    {
      LEntry(a0, n, negligible, i, j);
      LEntry(a0, n, negligible, m, j);
      TermMatches(a0, n, negligible, i, j, m);
      WeightedTerm(l, d, n, i, m, j);
    }
  }

  /**
   * The "sanity" product is the input: for a symmetric matrix whose negligible
   * pivots all sit in columns that are already zero, `L·(D·Lᵗ) == M`.
   */
  lemma LdlReconstructs(a0: Matrix, negligible: real -> bool)
    requires IsSquare(a0) && negligible(0.0) && IsSymmetric(a0)
    requires ExactPivots(a0, |a0|, negligible)
    ensures var n := |a0|;
      var l, d := LdlL(a0, n, negligible), DiagonalAfter(a0, n, negligible, n);
      MatMul(l, MatMul(d, Transpose(l), n), n) == a0
  {
    var n := |a0|;
    var l, d := LdlL(a0, n, negligible), DiagonalAfter(a0, n, negligible, n);
    LdlDiagonal(a0, negligible);
    var s := MatMul(l, MatMul(d, Transpose(l), n), n);
    forall i | 0 <= i < n
      ensures s[i] == a0[i]
    {
      forall m | 0 <= m < n
        ensures s[i][m] == a0[i][m]
      {
        SandwichEntry(l, d, n, i, m);
        DotIsPrefixDot(l[i], Weighted(d, l[m]));
        RowTerms(a0, n, negligible, i, m);
        SumMatches(a0, n, negligible, i, m, l[i], Weighted(d, l[m]), n);
        EntryAccumulates(a0, n, negligible, n, i, m);
        EntryCleared(a0, n, negligible, n, i, m);
      }
    }
  }

  // ---------------------------------------------------------------------------
  // What decomposeLDL returns
  // ---------------------------------------------------------------------------

  /** Entry `k` of the log is the working matrix once row `k` is done. */
  lemma {:induction false} WorkLogEntries(a0: Matrix, n: nat, negligible: real -> bool, k: nat)
    requires IsMatrix(a0, n, n) && negligible(0.0) && k <= n
    ensures forall j :: 0 <= j < k ==> WorkLog(a0, n, negligible, k)[j] == Working(a0, n, negligible, j + 1)
  {
    if k > 0 {
      WorkLogEntries(a0, n, negligible, k - 1);
    }
  }

  /**
   * `decomposeLDL` logs one working matrix per row and returns a unit lower
   * triangular L and a diagonal D holding the pivots; on a symmetric matrix
   * with exact pivots its "sanity" product is the input itself.
   */
  lemma LdlResult(a0: Matrix, negligible: real -> bool)
    requires IsSquare(a0) && negligible(0.0)
    ensures var n, r := |a0|, LDL(a0, negligible);
      && r.Decomposition? && |r.steps| == 1 && r.steps[0].name == "A" && |r.steps[0].steps| == n
      && (forall k :: 0 <= k < n ==> r.steps[0].steps[k] == Working(a0, n, negligible, k + 1))
      && |r.extras| == 3 && r.extras[0].name == "sanity" && r.extras[1].name == "L" && r.extras[2].name == "D"
      && IsMatrix(r.extras[1].data, n, n) && IsUnitLowerTriangular(r.extras[1].data)
      && IsMatrix(r.extras[2].data, n, n) && IsDiagonal(r.extras[2].data)
      && (forall k :: 0 <= k < n ==> r.extras[2].data[k][k] == Pivot(a0, n, negligible, k))
      && (IsSymmetric(a0) && ExactPivots(a0, n, negligible) ==> r.extras[0].data == a0)
  {
    var n := |a0|;
    WorkLogEntries(a0, n, negligible, n);
    LdlUnitLower(a0, negligible);
    LdlDiagonal(a0, negligible);
    if IsSymmetric(a0) && ExactPivots(a0, n, negligible) {
      LdlReconstructs(a0, negligible);
    }
  }

  /** With a zero middle factor the product `L·(D·Lᵗ)` is zero. */
  lemma ZeroMiddle(l: Matrix, d: Matrix, n: nat)
    requires IsMatrix(l, n, n) && Width(l) == n && IsMatrix(d, n, n)
    requires forall i :: 0 <= i < n ==> IsZero(d[i])
    ensures MatMul(l, MatMul(d, Transpose(l), n), n) == Zeros(n, n)
  {
    var x := MatMul(d, Transpose(l), n);
    forall i | 0 <= i < n
      ensures IsZero(x[i])
    {
      forall j | 0 <= j < n
        ensures x[i][j] == 0.0
      {
        DotZeroLeft(d[i], Column(Transpose(l), j));
      }
    }
    var s := MatMul(l, x, n);
    forall i | 0 <= i < n
      ensures s[i] == Zeros(n, n)[i]
    {
      forall j | 0 <= j < n
        ensures s[i][j] == 0.0
      {
        var c := Column(x, j);
        assert IsZero(c);
        DotCommutes(l[i], c);
        DotZeroLeft(c, l[i]);
      }
    }
  }

  /**
   * Without exact pivots the product can miss the input: `[[0, 1], [1, 0]]`
   * has two zero pivots, so D comes out as the zero matrix and the "sanity"
   * product is zero.
   */
  lemma ZeroPivotsLoseEntries()
    ensures var a0 := [[0.0, 1.0], [1.0, 0.0]];
      var negligible := (x: real) => x == 0.0;
      && IsSquare(a0) && IsSymmetric(a0) && !ExactPivots(a0, 2, negligible)
      && LDL(a0, negligible).extras[0].data == Zeros(2, 2) != a0
  {
    var a0 := [[0.0, 1.0], [1.0, 0.0]];
    var negligible := (x: real) => x == 0.0;
    assert !ExactAt(a0, 2, negligible, 0) by {
      assert Entry(a0, 2, negligible, 0, 1, 0) == 1.0;
    }
    var l, d := LdlL(a0, 2, negligible), DiagonalAfter(a0, 2, negligible, 2);
    DiagonalEntries(a0, 2, negligible, 2);
    assert Pivot(a0, 2, negligible, 0) == 0.0;
    assert Pivot(a0, 2, negligible, 1) == 0.0;
    ZeroMiddle(l, d, 2);
    assert Zeros(2, 2)[0][1] != a0[0][1];
  }
}
