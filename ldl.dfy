/**
 * `outerProduct` and `decomposeLDL` (scripts/decompose.js lines 294-362): the
 * LDLᵗ decomposition by rank-one updates. Each row `k` takes the working
 * matrix's diagonal entry `d` as `D[k][k]`; unless `d` is negligible, column
 * `k` divided by `d` becomes column `k` of L and the outer product of that
 * column with column `k` is subtracted from the working matrix.
 *
 * The floating-point test `D[row][row] + 1 !== 1` is the parameter
 * `negligible`, of which the model only assumes that 0 is negligible (so no
 * division by zero can happen).
 */
module Ldl {
  import opened Matrices
  import opened Results

  // ---------------------------------------------------------------------------
  // outerProduct
  // ---------------------------------------------------------------------------

  /** `s·v`, entry by entry. */
  function Scale(s: real, v: seq<real>): (w: seq<real>)
    ensures |w| == |v|
  {
    seq(|v|, j requires 0 <= j < |v| => s * v[j])
  }

  /** The outer product `u·vᵗ`: row `i` is `u[i]·v`. */
  function Outer(u: seq<real>, v: seq<real>): (o: Matrix)
    ensures IsMatrix(o, |u|, |v|)
  {
    seq(|u|, i requires 0 <= i < |u| => Scale(u[i], v))
  }

  /** `outerProduct` (lines 300-308): fill a zero matrix entry by entry. */
  method OuterProduct(u: seq<real>, v: seq<real>) returns (o: Matrix)
    ensures o == Outer(u, v) && IsMatrix(o, |u|, |v|)
    ensures forall i, j :: 0 <= i < |u| && 0 <= j < |v| ==> o[i][j] == u[i] * v[j]
  {
    var zero := Zeros(|u|, |v|);
    var m := new seq<real>[|u|](i requires 0 <= i < |u| => zero[i]);
    var row := 0;
    while row < |u|
      invariant row <= |u| && m.Length == |u|
      invariant forall i :: 0 <= i < |u| ==> m[i] == if i < row then Outer(u, v)[i] else zero[i]
    {
      var col := 0;
      while col < |v|
        invariant row < |u| && col <= |v| && |m[row]| == |v|
        invariant forall i :: 0 <= i < |u| && i != row ==> m[i] == if i < row then Outer(u, v)[i] else zero[i]
        invariant forall j :: 0 <= j < |v| ==> m[row][j] == if j < col then u[row] * v[j] else 0.0
      {
        var line := m[row][col := u[row] * v[col]];
        assert forall j :: 0 <= j < |v| ==> line[j] == if j < col + 1 then u[row] * v[j] else 0.0;
        m[row] := line;
        col := col + 1;
      }
      forall j | 0 <= j < |v|
        ensures m[row][j] == Outer(u, v)[row][j]
      {
      }
      row := row + 1;
    }
    o := m[..];
  }

  /** Scaling a vector scales its inner products. */
  lemma {:induction false} DotScaled(s: real, v: seq<real>, x: seq<real>)
    requires |v| == |x|
    ensures Dot(Scale(s, v), x) == s * Dot(v, x)
    decreases |v|
  {
    if |v| > 0 {
      forall k | 0 <= k < |v| - 1
        ensures Scale(s, v)[1..][k] == Scale(s, v[1..])[k]
      {
        assert Scale(s, v)[1..][k] == Scale(s, v)[k + 1];
      }
      assert Scale(s, v)[1..] == Scale(s, v[1..]);
      DotScaled(s, v[1..], x[1..]);
      assert s * (v[0] * x[0] + Dot(v[1..], x[1..])) == s * v[0] * x[0] + s * Dot(v[1..], x[1..]);
    }
  }

  /** The outer product has rank one: entry `i` of `(u·vᵗ)·x` is `u[i]·(v·x)`. */
  lemma {:induction false} OuterRankOne(u: seq<real>, v: seq<real>, x: seq<real>, i: nat)
    requires |v| == |x| && i < |u|
    ensures MatVec(Outer(u, v), x)[i] == u[i] * Dot(v, x)
  {
    assert Outer(u, v)[i] == Scale(u[i], v);
    DotScaled(u[i], v, x);
  }

  // ---------------------------------------------------------------------------
  // decomposeLDL
  // ---------------------------------------------------------------------------

  /** `math.subtract`: the entry-by-entry difference of two matrices of one shape. */
  function Subtract(a: Matrix, b: Matrix, n: nat): (c: Matrix)
    requires IsMatrix(a, n, n) && IsMatrix(b, n, n)
    ensures IsMatrix(c, n, n)
  {
    seq(n, i requires 0 <= i < n => seq(n, j requires 0 <= j < n => a[i][j] - b[i][j]))
  }

  /** What row `k` of the loop of lines 325-346 makes of the working matrix `a`. */
  function RowStep(a: Matrix, n: nat, negligible: real -> bool, k: nat): (b: Matrix)
    requires IsMatrix(a, n, n) && k < n && negligible(0.0)
    ensures IsMatrix(b, n, n)
  {
    var d := a[k][k];
    if negligible(d) then a else Subtract(a, Outer(DivideBy(Column(a, k), d), Column(a, k)), n)
  }

  /** The working matrix `M` after rows `0 .. k-1` of the loop of lines 325-346. */
  function Working(a0: Matrix, n: nat, negligible: real -> bool, k: nat): (a: Matrix)
    requires IsMatrix(a0, n, n) && k <= n && negligible(0.0)
    ensures IsMatrix(a, n, n)
  {
    if k == 0 then a0 else RowStep(Working(a0, n, negligible, k - 1), n, negligible, k - 1)
  }

  /** Column `k` of L as pushed by row `k`: the scaled working column, or the unit column. */
  function LColumn(a0: Matrix, n: nat, negligible: real -> bool, k: nat): (c: seq<real>)
    requires IsMatrix(a0, n, n) && k < n && negligible(0.0)
    ensures |c| == n
  {
    var a := Working(a0, n, negligible, k);
    var d := a[k][k];
    if negligible(d) then Eye(n)[k] else DivideBy(Column(a, k), d)
  }

  /** The columns of L pushed by rows `0 .. k-1` (L before it is transposed). */
  function LColumns(a0: Matrix, n: nat, negligible: real -> bool, k: nat): (cs: Matrix)
    requires IsMatrix(a0, n, n) && k <= n && negligible(0.0)
    ensures IsMatrix(cs, k, n)
  {
    if k == 0 then [] else LColumns(a0, n, negligible, k - 1) + [LColumn(a0, n, negligible, k - 1)]
  }

  /** `D` after rows `0 .. k-1`: the identity with the working diagonal entries written in. */
  function DiagonalAfter(a0: Matrix, n: nat, negligible: real -> bool, k: nat): (d: Matrix)
    requires IsMatrix(a0, n, n) && k <= n && negligible(0.0)
    ensures IsMatrix(d, n, n)
  {
    if k == 0 then Eye(n)
    else
      var d := DiagonalAfter(a0, n, negligible, k - 1);
      d[k - 1 := d[k - 1][k - 1 := Working(a0, n, negligible, k - 1)[k - 1][k - 1]]]
  }

  /** `logM` after rows `0 .. k-1`: the working matrix after each of them. */
  function WorkLog(a0: Matrix, n: nat, negligible: real -> bool, k: nat): (log: seq<Matrix>)
    requires IsMatrix(a0, n, n) && k <= n && negligible(0.0)
    ensures |log| == k
  {
    if k == 0 then [] else WorkLog(a0, n, negligible, k - 1) + [Working(a0, n, negligible, k)]
  }

  /** `a` with every entry above the diagonal set to 0 (lines 356-360). */
  function LowerPart(a: Matrix, n: nat): (l: Matrix)
    requires IsMatrix(a, n, n)
    ensures IsMatrix(l, n, n)
  {
    seq(n, i requires 0 <= i < n => seq(n, j requires 0 <= j < n => if i < j then 0.0 else a[i][j]))
  }

  /** A square matrix's width is its height. */
  lemma SquareWidth(a: Matrix, n: nat)
    requires IsMatrix(a, n, n)
    ensures Width(a) == n && IsMatrix(a, |a|, Width(a))
  {
  }

  /** The returned L: the pushed columns transposed into columns, then zeroed above the diagonal. */
  function LdlL(a0: Matrix, n: nat, negligible: real -> bool): (l: Matrix)
    requires IsMatrix(a0, n, n) && negligible(0.0)
    ensures IsMatrix(l, n, n) && Width(l) == n
  {
    var cs := LColumns(a0, n, negligible, n);
    SquareWidth(cs, n);
    LowerPart(Transpose(cs), n)
  }

  /** What `decomposeLDL` returns: the log of working matrices, then `L·(D·Lᵗ)`, L and D. */
  function LDL(a0: Matrix, negligible: real -> bool): Decomposition
    requires IsSquare(a0) && negligible(0.0)
  {
    var n := |a0|;
    var l, d := LdlL(a0, n, negligible), DiagonalAfter(a0, n, negligible, n);
    SquareWidth(l, n);
    Decomposition([Log("A", WorkLog(a0, n, negligible, n))],
      [Named("sanity", MatMul(l, MatMul(d, Transpose(l), n), n)), Named("L", l), Named("D", d)])
  }

  /** The zeroing loop of lines 356-360, in place. */
  method ZeroAboveDiagonal(l: array<seq<real>>, n: nat)
    requires IsMatrix(l[..], n, n)
    modifies l
    ensures l[..] == LowerPart(old(l[..]), n)
  {
    ghost var a := l[..];
    ghost var target := LowerPart(a, n);
    var row := 0;
    while row + 1 < n
      invariant row <= n && l.Length == n
      invariant forall i :: 0 <= i < n ==> l[i] == if i < row then target[i] else a[i]
    {
      var col := row + 1;
      while col < n
        invariant row < col <= n && |l[row]| == n
        invariant forall i :: 0 <= i < n && i != row ==> l[i] == if i < row then target[i] else a[i]
        invariant forall j :: 0 <= j < n ==> l[row][j] == if row < j < col then 0.0 else a[row][j]
      {
        l[row] := l[row][col := 0.0];
        col := col + 1;
      }
      assert l[row] == target[row];
      row := row + 1;
    }
    if 0 < n {
      assert a[n - 1] == target[n - 1];
    }
    assert l[..] == target;
  }

  /** How row `k` of the loop extends the working matrix, the columns of L, D and the log. */
  lemma LdlRowFacts(a0: Matrix, n: nat, negligible: real -> bool, k: nat)
    requires IsMatrix(a0, n, n) && k < n && negligible(0.0)
    ensures var a, d := Working(a0, n, negligible, k), Working(a0, n, negligible, k)[k][k];
      && Working(a0, n, negligible, k + 1) ==
        (if negligible(d) then a else Subtract(a, Outer(DivideBy(Column(a, k), d), Column(a, k)), n))
      && LColumns(a0, n, negligible, k + 1) ==
        LColumns(a0, n, negligible, k) + [if negligible(d) then Eye(n)[k] else DivideBy(Column(a, k), d)]
      && WorkLog(a0, n, negligible, k + 1) == WorkLog(a0, n, negligible, k) + [Working(a0, n, negligible, k + 1)]
      && DiagonalAfter(a0, n, negligible, k + 1) ==
        DiagonalAfter(a0, n, negligible, k)[k := DiagonalAfter(a0, n, negligible, k)[k][k := d]]
  {
  }

  /** One pass of the loop of lines 325-346. */
  method LdlRow(ghost a0: Matrix, n: nat, negligible: real -> bool, row: nat, m: Matrix,
                lColumns: Matrix, d: array<seq<real>>, logM: seq<Matrix>)
    returns (m': Matrix, lColumns': Matrix, logM': seq<Matrix>)
    requires IsMatrix(a0, n, n) && row < n && negligible(0.0) && d.Length == n
    requires m == Working(a0, n, negligible, row) && lColumns == LColumns(a0, n, negligible, row)
    requires d[..] == DiagonalAfter(a0, n, negligible, row) && logM == WorkLog(a0, n, negligible, row)
    modifies d
    ensures m' == Working(a0, n, negligible, row + 1) && lColumns' == LColumns(a0, n, negligible, row + 1)
    ensures d[..] == DiagonalAfter(a0, n, negligible, row + 1) && logM' == WorkLog(a0, n, negligible, row + 1)
  {
    LdlRowFacts(a0, n, negligible, row);
    d[row] := d[row][row := m[row][row]];
    m' := m;
    if !negligible(d[row][row]) {
      var colValues := Column(m, row);
      lColumns' := lColumns + [DivideBy(colValues, d[row][row])];
      var o := OuterProduct(lColumns'[row], colValues);
      m' := Subtract(m, o, n);
    } else {
      var unit := Zeros(1, n)[0][row := 1.0];
      assert unit == Eye(n)[row];
      lColumns' := lColumns + [unit];
    }
    logM' := logM + [m'];
  }

  /**
   * `decomposeLDL` (lines 315-362). The caller's `M` is a value here: the
   * loop rebinds its own `M` to each `math.subtract` result and never writes
   * into the matrix it was given.
   */
  method DecomposeLDL(m0: Matrix, negligible: real -> bool) returns (r: Decomposition)
    requires IsSquare(m0) && negligible(0.0)
    ensures r == LDL(m0, negligible)
  {
    var n := |m0|;
    var m := m0;
    var lColumns: Matrix := [];
    var e := Eye(n);
    var d := new seq<real>[n](i requires 0 <= i < n => e[i]);
    var logM: seq<Matrix> := [];
    var row := 0;
    while row < n
      invariant row <= n && d.Length == n
      invariant m == Working(m0, n, negligible, row)
      invariant lColumns == LColumns(m0, n, negligible, row)
      invariant d[..] == DiagonalAfter(m0, n, negligible, row)
      invariant logM == WorkLog(m0, n, negligible, row)
    {
      m, lColumns, logM := LdlRow(m0, n, negligible, row, m, lColumns, d, logM);
      row := row + 1;
    }
    SquareWidth(lColumns, n);
    var lt := Transpose(lColumns);
    var l := new seq<real>[n](i requires 0 <= i < n => lt[i]);
    assert l[..] == lt;
    ZeroAboveDiagonal(l, n);
    var lower, diagonal := l[..], d[..];
    SquareWidth(lower, n);
    r := Decomposition([Log("A", logM)],
      [Named("sanity", MatMul(lower, MatMul(diagonal, Transpose(lower), n), n)), Named("L", lower), Named("D", diagonal)]);
  }
}
