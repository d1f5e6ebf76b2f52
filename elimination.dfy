/**
 * Gauss-Jordan elimination as values: the pivot search, the pivot step and the
 * whole reduction that `findRREF` and `findNullspace` (scripts/decompose.js)
 * carry out in place, with what the reduction achieves.
 */
module Elimination {
  import opened Wrappers
  import opened Matrices

  // ---------------------------------------------------------------------------
  // Pivot search (lines 67-78 and 133-144)
  // ---------------------------------------------------------------------------

  /** Rows `from` .. h-1 of `a` are zero in the columns `lo` .. hi-1. */
  ghost predicate ZeroBlock(a: Matrix, h: nat, w: nat, from: int, lo: int, hi: int)
    requires IsMatrix(a, h, w)
  {
    forall k, j :: 0 <= k < h && 0 <= j < w && from <= k && lo <= j < hi ==> a[k][j] == 0.0
  }

  /**
   * The search loop from row `i` of column `c`: walk down the column; at the
   * bottom go back to row `curRow` of the next column; give up after the last
   * column. The result is the (row, column) of the first nonzero entry met.
   */
  function PivotSearch(a: Matrix, h: nat, w: nat, curRow: nat, c: nat, i: nat): (r: Option<(nat, nat)>)
    requires IsMatrix(a, h, w) && curRow <= i < h && c < w
    ensures r.Some? ==> curRow <= r.value.0 < h && c <= r.value.1 < w && a[r.value.0][r.value.1] != 0.0
    decreases w - c, h - i
  {
    if a[i][c] != 0.0 then Some((i, c))
    else if i + 1 < h then PivotSearch(a, h, w, curRow, c, i + 1)
    else if c + 1 < w then PivotSearch(a, h, w, curRow, c + 1, curRow)
    else None
  }

  /** Everything the search passes over is zero. */
  lemma {:induction false} PivotSearchFirst(a: Matrix, h: nat, w: nat, curRow: nat, c: nat, i: nat)
    requires IsMatrix(a, h, w) && curRow <= i < h && c < w
    ensures var r := PivotSearch(a, h, w, curRow, c, i);
      r.Some? && r.value.1 == c ==> i <= r.value.0 && forall k :: i <= k < r.value.0 ==> a[k][c] == 0.0
    ensures var r := PivotSearch(a, h, w, curRow, c, i);
      r.Some? && r.value.1 > c ==>
        (forall k :: i <= k < h ==> a[k][c] == 0.0) && ZeroBlock(a, h, w, curRow, c + 1, r.value.1) &&
        forall k :: curRow <= k < r.value.0 ==> a[k][r.value.1] == 0.0
    ensures var r := PivotSearch(a, h, w, curRow, c, i);
      r.None? ==> (forall k :: i <= k < h ==> a[k][c] == 0.0) && ZeroBlock(a, h, w, curRow, c + 1, w)
    decreases w - c, h - i
  {
    if a[i][c] != 0.0 {
    } else if i + 1 < h {
      PivotSearchFirst(a, h, w, curRow, c, i + 1);
    } else if c + 1 < w {
      PivotSearchFirst(a, h, w, curRow, c + 1, curRow);
    }
  }

  /**
   * The pivot for row `curRow`, searching from column `c`: the first column, from
   * `c` on, with a nonzero entry at or below `curRow`, and its first such row.
   * `None` when every such entry is zero.
   */
  function FindPivot(a: Matrix, h: nat, w: nat, curRow: nat, c: nat): (r: Option<(nat, nat)>)
    requires IsMatrix(a, h, w) && curRow < h && c < w
    ensures r.Some? ==> curRow <= r.value.0 < h && c <= r.value.1 < w && a[r.value.0][r.value.1] != 0.0
  {
    PivotSearch(a, h, w, curRow, c, curRow)
  }

  /**
   * The pivot found is the first nonzero entry at or below row `curRow`, in
   * column-major order from column `c`; no pivot means none exists.
   */
  lemma FindPivotFirst(a: Matrix, h: nat, w: nat, curRow: nat, c: nat)
    requires IsMatrix(a, h, w) && curRow < h && c < w
    ensures var r := FindPivot(a, h, w, curRow, c);
      r.Some? ==> ZeroBlock(a, h, w, curRow, c, r.value.1) && forall k :: curRow <= k < r.value.0 ==> a[k][r.value.1] == 0.0
    ensures FindPivot(a, h, w, curRow, c).None? <==> ZeroBlock(a, h, w, curRow, c, w)
  {
    PivotSearchFirst(a, h, w, curRow, c, curRow);
    var r := FindPivot(a, h, w, curRow, c);
    if r.Some? {
      var (i, c') := r.value;
      assert ZeroBlock(a, h, w, curRow, c, c') by {
        forall k, j | curRow <= k < h && c <= j < c'
          ensures a[k][j] == 0.0
        {
          if j > c {
            assert ZeroBlock(a, h, w, curRow, c + 1, c');
          }
        }
      }
    } else {
      assert ZeroBlock(a, h, w, curRow, c, w) by {
        forall k, j | curRow <= k < h && c <= j < w
          ensures a[k][j] == 0.0
        {
          if j > c {
            assert ZeroBlock(a, h, w, curRow, c + 1, w);
          }
        }
      }
    }
  }

  // ---------------------------------------------------------------------------
  // The pivot step (lines 83-102)
  // ---------------------------------------------------------------------------

  /** `u − s·v` on the first `n` entries only, the rest of `u` unchanged. */
  function SubScaledFirst(u: seq<real>, s: real, v: seq<real>, n: nat): (r: seq<real>)
    requires |u| == |v|
    ensures |r| == |u|
    ensures forall j :: 0 <= j < |u| ==> r[j] == if j < n then u[j] - s * v[j] else u[j]
  {
    seq(|u|, j requires 0 <= j < |u| => if j < n then u[j] - s * v[j] else u[j])
  }

  /**
   * Swap rows `i` and `r`, divide row `r` by its entry in column `c`, and subtract
   * from every other row its entry in column `c` times row `r`.
   */
  function PivotStep(a: Matrix, h: nat, w: nat, r: nat, i: nat, c: nat): (b: Matrix)
    requires IsMatrix(a, h, w) && r < h && i < h && c < w && a[i][c] != 0.0
    ensures IsMatrix(b, h, w)
  {
    var s := Swap(a, i, r);
    var p := DivideBy(s[r], s[r][c]);
    seq(h, k requires 0 <= k < h => if k == r then p else SubScaled(s[k], s[k][c], p))
  }

  /**
   * The shape of the matrix after a pivot step on row `r` at column `c`, when rows
   * `r` .. h-1 are zero before column `c`: a leading 1 in row `r`, zeros in the rest
   * of column `c` and below row `r` up to column `c`, and rows above `r` unchanged
   * wherever the pivot row is zero.
   */
  lemma PivotStepShape(a: Matrix, h: nat, w: nat, r: nat, i: nat, c: nat)
    requires IsMatrix(a, h, w) && r <= i < h && c < w && a[i][c] != 0.0
    requires ZeroBlock(a, h, w, r, 0, c)
    ensures PivotStep(a, h, w, r, i, c)[r][c] == 1.0
    ensures forall j :: 0 <= j < c ==> PivotStep(a, h, w, r, i, c)[r][j] == 0.0
    ensures forall k :: 0 <= k < h && k != r ==> PivotStep(a, h, w, r, i, c)[k][c] == 0.0
    ensures ZeroBlock(PivotStep(a, h, w, r, i, c), h, w, r + 1, 0, c + 1)
    ensures forall k, j :: 0 <= k < r && 0 <= j < w && a[i][j] == 0.0 ==> PivotStep(a, h, w, r, i, c)[k][j] == a[k][j]
  {
    var b := PivotStep(a, h, w, r, i, c);
    var s := Swap(a, i, r);
    var p := DivideBy(s[r], s[r][c]);
    assert p[c] == 1.0;
    forall k, j | r <= k < h && 0 <= j < c
      ensures s[k][j] == 0.0
    {
      var k' := if k == r then i else if k == i then r else k;
      assert s[k] == a[k'];
    }
    forall k, j | 0 <= k < h && k != r && 0 <= j < w && p[j] == 0.0
      ensures b[k][j] == s[k][j]
    {
      assert b[k] == SubScaled(s[k], s[k][c], p);
    }
    forall k | 0 <= k < h && k != r
      ensures b[k][c] == 0.0
    {
      assert b[k] == SubScaled(s[k], s[k][c], p);
    }
  }

  // ---------------------------------------------------------------------------
  // Echelon form
  // ---------------------------------------------------------------------------

  /** Column `col` of `a` is the `k`-th unit column: 1 in row `k`, 0 elsewhere. */
  ghost predicate UnitColumn(a: Matrix, h: nat, w: nat, k: nat, col: nat)
    requires IsMatrix(a, h, w) && col < w
  {
    forall j :: 0 <= j < h ==> a[j][col] == if j == k then 1.0 else 0.0
  }

  /** The first `c` entries of `row` are zero. */
  ghost predicate ZerosBefore(row: seq<real>, c: nat)
    requires c <= |row|
  {
    forall j :: 0 <= j < c ==> row[j] == 0.0
  }

  ghost predicate StrictlyIncreasing(piv: seq<nat>)
  {
    forall k1, k2 :: 0 <= k1 < k2 < |piv| ==> piv[k1] < piv[k2]
  }

  /**
   * Rows 0 .. |piv|-1 of `a` carry a leading 1 in the strictly increasing columns
   * `piv`, each alone in its column; the rows below are zero in every column
   * before `c`.
   */
  ghost predicate Echelon(a: Matrix, h: nat, w: nat, piv: seq<nat>, c: nat)
    requires IsMatrix(a, h, w)
  {
    |piv| <= h && c <= w && StrictlyIncreasing(piv) &&
    (forall k :: 0 <= k < |piv| ==> piv[k] < c && UnitColumn(a, h, w, k, piv[k]) && ZerosBefore(a[k], piv[k])) &&
    ZeroBlock(a, h, w, |piv|, 0, c)
  }

  /** Reduced row echelon form, with pivot columns `piv`: echelon form over every column. */
  ghost predicate IsRref(a: Matrix, h: nat, w: nat, piv: seq<nat>)
    requires IsMatrix(a, h, w)
  {
    Echelon(a, h, w, piv, w)
  }

  /** A pivot step at the pivot found for row |piv| extends the echelon form by that pivot. */
  lemma PivotStepKeepsEchelon(a: Matrix, h: nat, w: nat, piv: seq<nat>, c0: nat, i: nat, c: nat)
    requires IsMatrix(a, h, w) && |piv| < h && c0 < w && Echelon(a, h, w, piv, c0)
    requires FindPivot(a, h, w, |piv|, c0) == Some((i, c))
    ensures Echelon(PivotStep(a, h, w, |piv|, i, c), h, w, piv + [c], c + 1)
  {
    var r := |piv|;
    FindPivotFirst(a, h, w, r, c0);
    assert ZeroBlock(a, h, w, r, 0, c) by {
      forall k, j | r <= k < h && 0 <= j < c
        ensures a[k][j] == 0.0
      {
        if j >= c0 {
          assert ZeroBlock(a, h, w, r, c0, c);
        }
      }
    }
    var b := PivotStep(a, h, w, r, i, c);
    PivotStepShape(a, h, w, r, i, c);
    var piv' := piv + [c];
    forall m | 0 <= m < |piv'|
      ensures piv'[m] < c + 1 && UnitColumn(b, h, w, m, piv'[m]) && ZerosBefore(b[m], piv'[m])
    {
      if m < r {
        var pm := piv[m];
        assert UnitColumn(a, h, w, m, pm) && ZerosBefore(a[m], pm);
        assert a[i][pm] == 0.0;
        forall j | 0 <= j < h
          ensures b[j][pm] == if j == m then 1.0 else 0.0
        {
          if j < r {
            assert b[j][pm] == a[j][pm];
          }
        }
        forall j | 0 <= j < pm
          ensures b[m][j] == 0.0
        {
          assert a[i][j] == 0.0;
        }
      }
    }
    assert StrictlyIncreasing(piv') by {
      forall k1, k2 | 0 <= k1 < k2 < |piv'|
        ensures piv'[k1] < piv'[k2]
      {
        if k2 < r {
          assert piv[k1] < piv[k2];
        } else {
          assert piv[k1] < c0;
        }
      }
    }
  }

  /** Strictly increasing column numbers below `w` number at most `w`. */
  lemma {:induction false} IncreasingBound(piv: seq<nat>, w: nat)
    requires forall k :: 0 <= k < |piv| ==> piv[k] < w
    requires StrictlyIncreasing(piv)
    ensures |piv| <= w
  {
    if |piv| > 0 {
      var last := |piv| - 1;
      IncreasingBound(piv[..last], piv[last]);
    }
  }

  // ---------------------------------------------------------------------------
  // The reduction (lines 62-103)
  // ---------------------------------------------------------------------------

  /**
   * The main loop of `findRREF` from row |piv| and column `c` on: the matrix it
   * leaves and the pivot columns it used (one per row it processed).
   */
  function RrefFrom(a: Matrix, h: nat, w: nat, piv: seq<nat>, c: nat): (r: (Matrix, seq<nat>))
    requires IsMatrix(a, h, w) && |piv| <= h
    ensures IsMatrix(r.0, h, w) && |piv| <= |r.1| <= h
    decreases h - |piv|, 1
  {
    if |piv| == h || w <= c then (a, piv)
    else RrefAt(a, h, w, piv, FindPivot(a, h, w, |piv|, c))
  }

  /** The main loop of `findRREF`, once the search for the next pivot has given `p`. */
  function RrefAt(a: Matrix, h: nat, w: nat, piv: seq<nat>, p: Option<(nat, nat)>): (r: (Matrix, seq<nat>))
    requires IsMatrix(a, h, w) && |piv| < h
    requires p.Some? ==> p.value.0 < h && |piv| <= p.value.0 && p.value.1 < w && a[p.value.0][p.value.1] != 0.0
    ensures IsMatrix(r.0, h, w) && |piv| <= |r.1| <= h
    decreases h - |piv|, 0
  {
    if p.None? then (a, piv)
    else RrefFrom(PivotStep(a, h, w, |piv|, p.value.0, p.value.1), h, w, piv + [p.value.1], p.value.1 + 1)
  }

  /** `findRREF` on an `h`-by-`w` matrix: the reduced matrix and its pivot columns. */
  function Rref(a: Matrix, h: nat, w: nat): (r: (Matrix, seq<nat>))
    requires IsMatrix(a, h, w)
    ensures IsMatrix(r.0, h, w)
  {
    RrefFrom(a, h, w, [], 0)
  }

  /** One round of the main loop: the pivot step at the pivot found. */
  lemma RrefFromStep(a: Matrix, h: nat, w: nat, piv: seq<nat>, c: nat, i: nat, c': nat)
    requires IsMatrix(a, h, w) && |piv| < h && c < w && FindPivot(a, h, w, |piv|, c) == Some((i, c'))
    ensures RrefFrom(a, h, w, piv, c) == RrefFrom(PivotStep(a, h, w, |piv|, i, c'), h, w, piv + [c'], c' + 1)
  {
  }

  /** Echelon form up to column `c` is reduced form once no pivot remains to be found. */
  lemma EchelonComplete(a: Matrix, h: nat, w: nat, piv: seq<nat>, c: nat)
    requires IsMatrix(a, h, w) && Echelon(a, h, w, piv, c)
    requires |piv| == h || c == w || ZeroBlock(a, h, w, |piv|, c, w)
    ensures IsRref(a, h, w, piv)
  {
    forall k, j | |piv| <= k < h && 0 <= j < w
      ensures a[k][j] == 0.0
    {
      if j < c {
        assert ZeroBlock(a, h, w, |piv|, 0, c);
      } else {
        assert ZeroBlock(a, h, w, |piv|, c, w);
      }
    }
  }

  /** The rest of the reduction keeps the echelon form and completes it. */
  lemma {:induction false} RrefFromIsRref(a: Matrix, h: nat, w: nat, piv: seq<nat>, c: nat)
    requires IsMatrix(a, h, w) && |piv| <= h && c <= w && Echelon(a, h, w, piv, c)
    ensures IsRref(RrefFrom(a, h, w, piv, c).0, h, w, RrefFrom(a, h, w, piv, c).1)
    decreases h - |piv|
  {
    if |piv| == h || w <= c {
      EchelonComplete(a, h, w, piv, c);
    } else {
      var found := FindPivot(a, h, w, |piv|, c);
      if found.None? {
        FindPivotFirst(a, h, w, |piv|, c);
        EchelonComplete(a, h, w, piv, c);
      } else {
        var (i, c') := found.value;
        PivotStepKeepsEchelon(a, h, w, piv, c, i, c');
        RrefFromStep(a, h, w, piv, c, i, c');
        RrefFromIsRref(PivotStep(a, h, w, |piv|, i, c'), h, w, piv + [c'], c' + 1);
      }
    }
  }

  /**
   * `findRREF` yields reduced row echelon form, with at most min(h, w) pivots;
   * a row is nonzero exactly when it carries a pivot.
   */
  lemma RrefIsRref(a: Matrix, h: nat, w: nat)
    requires IsMatrix(a, h, w)
    ensures IsRref(Rref(a, h, w).0, h, w, Rref(a, h, w).1)
    ensures |Rref(a, h, w).1| <= h && |Rref(a, h, w).1| <= w
  {
    RrefFromIsRref(a, h, w, [], 0);
    IncreasingBound(Rref(a, h, w).1, w);
  }

  /** A pivot step on a row that already has a leading 1 alone in its column changes nothing. */
  lemma PivotStepAtUnitColumn(a: Matrix, h: nat, w: nat, k: nat, c: nat)
    requires IsMatrix(a, h, w) && k < h && c < w && a[k][c] == 1.0
    requires forall row :: 0 <= row < h && row != k ==> a[row][c] == 0.0
    ensures PivotStep(a, h, w, k, k, c) == a
  {
    var b := PivotStep(a, h, w, k, k, c);
    assert Swap(a, k, k) == a;
    forall row | 0 <= row < h
      ensures b[row] == a[row]
    {
      if row == k {
        assert b[row] == DivideBy(a[k], 1.0);
      } else {
        assert b[row] == SubScaled(a[row], 0.0, DivideBy(a[k], 1.0));
      }
    }
  }

  /** The column the search for row `k` starts from, after the pivots `piv[..k]`. */
  function NextColumn(piv: seq<nat>, k: nat): nat
    requires k <= |piv|
  {
    if k == 0 then 0 else piv[k - 1] + 1
  }

  /** The round for row `k` finds the pivot `piv[k]` and its step changes nothing. */
  ghost predicate RoundSettled(a: Matrix, h: nat, w: nat, piv: seq<nat>, k: nat)
    requires IsMatrix(a, h, w) && k < |piv| <= h
  {
    NextColumn(piv, k) < w && FindPivot(a, h, w, k, NextColumn(piv, k)) == Some((k, piv[k])) &&
    PivotStep(a, h, w, k, k, piv[k]) == a
  }

  /** On a matrix in reduced form, the pivot for row `k` is its own pivot. */
  lemma PivotOfRref(a: Matrix, h: nat, w: nat, piv: seq<nat>, k: nat)
    requires IsMatrix(a, h, w) && IsRref(a, h, w, piv) && k < |piv|
    ensures RoundSettled(a, h, w, piv, k)
  {
    var c := NextColumn(piv, k);
    var pk := piv[k];
    assert UnitColumn(a, h, w, k, pk);
    PivotStepAtUnitColumn(a, h, w, k, pk);
    assert c <= pk < w by {
      if k > 0 {
        assert piv[k - 1] < piv[k];
      }
    }
    assert ZeroBlock(a, h, w, k, c, pk) by {
      forall row, j | k <= row < h && c <= j < pk
        ensures a[row][j] == 0.0
      {
        if row < |piv| {
          assert pk <= piv[row];
          assert ZerosBefore(a[row], piv[row]);
        }
      }
    }
    assert a[k][pk] != 0.0;
    FindPivotFirst(a, h, w, k, c);
  }

  /** Past its last pivot, a matrix in reduced form has no pivot left to find. */
  lemma RrefFromAtEnd(a: Matrix, h: nat, w: nat, piv: seq<nat>)
    requires IsMatrix(a, h, w) && IsRref(a, h, w, piv)
    ensures RrefFrom(a, h, w, piv, NextColumn(piv, |piv|)) == (a, piv)
  {
    var c := NextColumn(piv, |piv|);
    if |piv| < h && c < w {
      assert ZeroBlock(a, h, w, |piv|, c, w);
      FindPivotFirst(a, h, w, |piv|, c);
    }
  }

  /** A settled round only moves the reduction on to the next row and column. */
  lemma SettledRound(a: Matrix, h: nat, w: nat, piv: seq<nat>, k: nat)
    requires IsMatrix(a, h, w) && k < |piv| <= h && RoundSettled(a, h, w, piv, k)
    ensures RrefFrom(a, h, w, piv[..k], NextColumn(piv, k)) == RrefFrom(a, h, w, piv[..k + 1], NextColumn(piv, k + 1))
  {
    var c, before := NextColumn(piv, k), piv[..k];
    assert before + [piv[k]] == piv[..k + 1];
    assert NextColumn(piv, k + 1) == piv[k] + 1;
    assert |before| == k && FindPivot(a, h, w, k, c) == Some((k, piv[k])) && PivotStep(a, h, w, k, k, piv[k]) == a;
    RrefFromStep(a, h, w, before, c, k, piv[k]);
  }

  /** When every remaining round is settled, the rest of the reduction changes nothing. */
  lemma {:induction false} RrefFromOfSettled(a: Matrix, h: nat, w: nat, piv: seq<nat>, k: nat)
    requires IsMatrix(a, h, w) && |piv| <= h && k <= |piv|
    requires forall j :: k <= j < |piv| ==> RoundSettled(a, h, w, piv, j)
    requires RrefFrom(a, h, w, piv, NextColumn(piv, |piv|)) == (a, piv)
    ensures RrefFrom(a, h, w, piv[..k], NextColumn(piv, k)) == (a, piv)
    decreases |piv| - k
  {
    if k == |piv| {
      assert piv[..k] == piv;
    } else {
      SettledRound(a, h, w, piv, k);
      RrefFromOfSettled(a, h, w, piv, k + 1);
    }
  }

  /** A matrix in reduced row echelon form is left as it is, with its own pivots. */
  lemma RrefOfRref(a: Matrix, h: nat, w: nat, piv: seq<nat>)
    requires IsMatrix(a, h, w) && IsRref(a, h, w, piv)
    ensures Rref(a, h, w) == (a, piv)
  {
    forall j | 0 <= j < |piv|
      ensures RoundSettled(a, h, w, piv, j)
    {
      PivotOfRref(a, h, w, piv, j);
    }
    RrefFromAtEnd(a, h, w, piv);
    RrefFromOfSettled(a, h, w, piv, 0);
    assert piv[..0] == [];
  }

  /** A matrix in reduced row echelon form is left as it is, and reducing twice is reducing once. */
  lemma RrefIdempotent(a: Matrix, h: nat, w: nat)
    requires IsMatrix(a, h, w)
    ensures forall piv :: IsRref(a, h, w, piv) ==> Rref(a, h, w) == (a, piv)
    ensures Rref(Rref(a, h, w).0, h, w) == Rref(a, h, w)
  {
    forall piv | IsRref(a, h, w, piv)
      ensures Rref(a, h, w) == (a, piv)
    {
      RrefOfRref(a, h, w, piv);
    }
    RrefIsRref(a, h, w);
    RrefOfRref(Rref(a, h, w).0, h, w, Rref(a, h, w).1);
  }

  // ---------------------------------------------------------------------------
  // The reduction with a companion matrix (findNullspace, lines 128-171)
  // ---------------------------------------------------------------------------

  /**
   * What a pivot step does to the companion matrix `id`, given the working matrix
   * `a` before its row swap. As written (`fixed == false`, lines 151 and
   * 165-168): swap the same rows, do not divide, and subtract multiples of row `r`
   * in the first `w` columns only. Fixed: apply exactly the row operations of the
   * working matrix.
   */
  function CompanionStep(id: Matrix, a: Matrix, h: nat, w: nat, r: nat, i: nat, c: nat, fixed: bool): (t: Matrix)
    requires IsMatrix(id, h, h) && IsMatrix(a, h, w) && r < h && i < h && c < w && a[i][c] != 0.0
    ensures IsMatrix(t, h, h)
  {
    var s := Swap(a, i, r);
    var sw := Swap(id, i, r);
    if fixed then
      var q := DivideBy(sw[r], s[r][c]);
      seq(h, k requires 0 <= k < h => if k == r then q else SubScaled(sw[k], s[k][c], q))
    else
      seq(h, k requires 0 <= k < h => if k == r then sw[r] else SubScaledFirst(sw[k], s[k][c], sw[r], w))
  }

  /** The reduction of `findNullspace`: the working matrix, the companion matrix and the pivot columns. */
  function AugmentedFrom(a: Matrix, id: Matrix, h: nat, w: nat, piv: seq<nat>, c: nat, fixed: bool): (r: (Matrix, Matrix, seq<nat>))
    requires IsMatrix(a, h, w) && IsMatrix(id, h, h) && |piv| <= h
    ensures IsMatrix(r.0, h, w) && IsMatrix(r.1, h, h) && |r.2| <= h
    decreases h - |piv|, 1
  {
    if |piv| == h || w <= c then (a, id, piv)
    else AugmentedAt(a, id, h, w, piv, FindPivot(a, h, w, |piv|, c), fixed)
  }

  /** The reduction with a companion matrix, once the search for the next pivot has given `p`. */
  function AugmentedAt(a: Matrix, id: Matrix, h: nat, w: nat, piv: seq<nat>, p: Option<(nat, nat)>, fixed: bool): (r: (Matrix, Matrix, seq<nat>))
    requires IsMatrix(a, h, w) && IsMatrix(id, h, h) && |piv| < h
    requires p.Some? ==> p.value.0 < h && |piv| <= p.value.0 && p.value.1 < w && a[p.value.0][p.value.1] != 0.0
    ensures IsMatrix(r.0, h, w) && IsMatrix(r.1, h, h) && |r.2| <= h
    decreases h - |piv|, 0
  {
    if p.None? then (a, id, piv)
    else
      AugmentedFrom(PivotStep(a, h, w, |piv|, p.value.0, p.value.1),
                    CompanionStep(id, a, h, w, |piv|, p.value.0, p.value.1, fixed),
                    h, w, piv + [p.value.1], p.value.1 + 1, fixed)
  }

  /** One round of the reduction with a companion matrix. */
  lemma AugmentedFromStep(a: Matrix, id: Matrix, h: nat, w: nat, piv: seq<nat>, c: nat, i: nat, c': nat, fixed: bool)
    requires IsMatrix(a, h, w) && IsMatrix(id, h, h) && |piv| < h && c < w
    requires FindPivot(a, h, w, |piv|, c) == Some((i, c'))
    ensures AugmentedFrom(a, id, h, w, piv, c, fixed) ==
      AugmentedFrom(PivotStep(a, h, w, |piv|, i, c'), CompanionStep(id, a, h, w, |piv|, i, c', fixed),
                    h, w, piv + [c'], c' + 1, fixed)
  {
  }

  /** With every row or every column used up, the reduction with a companion stops. */
  lemma AugmentedFromDone(a: Matrix, id: Matrix, h: nat, w: nat, piv: seq<nat>, c: nat, fixed: bool)
    requires IsMatrix(a, h, w) && IsMatrix(id, h, h) && |piv| <= h
    requires |piv| == h || w <= c || FindPivot(a, h, w, |piv|, c).None?
    ensures AugmentedFrom(a, id, h, w, piv, c, fixed) == (a, id, piv)
  {
  }

  /** The working matrix goes through exactly the reduction of `findRREF`. */
  lemma {:induction false} AugmentedIsRref(a: Matrix, id: Matrix, h: nat, w: nat, piv: seq<nat>, c: nat, fixed: bool)
    requires IsMatrix(a, h, w) && IsMatrix(id, h, h) && |piv| <= h
    ensures AugmentedFrom(a, id, h, w, piv, c, fixed).0 == RrefFrom(a, h, w, piv, c).0
    ensures AugmentedFrom(a, id, h, w, piv, c, fixed).2 == RrefFrom(a, h, w, piv, c).1
    decreases h - |piv|
  {
    if |piv| < h && c < w {
      var p := FindPivot(a, h, w, |piv|, c);
      if p.Some? {
        var i, c' := p.value.0, p.value.1;
        var a1, id1 := PivotStep(a, h, w, |piv|, i, c'), CompanionStep(id, a, h, w, |piv|, i, c', fixed);
        AugmentedFromStep(a, id, h, w, piv, c, i, c', fixed);
        RrefFromStep(a, h, w, piv, c, i, c');
        AugmentedIsRref(a1, id1, h, w, piv + [c'], c' + 1, fixed);
      }
    }
  }

  /** Every row of `a` is the matching row of `id` times `t0`: `a == id·t0`. */
  ghost predicate Tracks(a: Matrix, id: Matrix, t0: Matrix, h: nat, w: nat)
    requires IsMatrix(a, h, w) && IsMatrix(id, h, h) && IsMatrix(t0, h, w)
  {
    forall k :: 0 <= k < h ==> a[k] == VecMat(id[k], t0, w)
  }

  /** The fixed companion step keeps `a == id·t0`. */
  lemma CompanionStepTracks(a: Matrix, id: Matrix, t0: Matrix, h: nat, w: nat, r: nat, i: nat, c: nat)
    requires IsMatrix(a, h, w) && IsMatrix(id, h, h) && IsMatrix(t0, h, w)
    requires r < h && i < h && c < w && a[i][c] != 0.0
    requires Tracks(a, id, t0, h, w)
    ensures Tracks(PivotStep(a, h, w, r, i, c), CompanionStep(id, a, h, w, r, i, c, true), t0, h, w)
  {
    var s := Swap(a, i, r);
    var sw := Swap(id, i, r);
    var b := PivotStep(a, h, w, r, i, c);
    var t := CompanionStep(id, a, h, w, r, i, c, true);
    assert forall k :: 0 <= k < h ==> s[k] == VecMat(sw[k], t0, w);
    var q := DivideBy(sw[r], s[r][c]);
    VecMatDivideBy(sw[r], s[r][c], t0, w);
    assert b[r] == VecMat(q, t0, w);
    forall k | 0 <= k < h
      ensures b[k] == VecMat(t[k], t0, w)
    {
      if k != r {
        VecMatSubScaled(sw[k], s[k][c], q, t0, w);
      }
    }
  }

  /** The fixed reduction keeps `a == id·t0` to the end. */
  lemma {:induction false} AugmentedTracks(a: Matrix, id: Matrix, t0: Matrix, h: nat, w: nat, piv: seq<nat>, c: nat)
    requires IsMatrix(a, h, w) && IsMatrix(id, h, h) && IsMatrix(t0, h, w) && |piv| <= h
    requires Tracks(a, id, t0, h, w)
    ensures Tracks(AugmentedFrom(a, id, h, w, piv, c, true).0, AugmentedFrom(a, id, h, w, piv, c, true).1, t0, h, w)
    decreases h - |piv|
  {
    if |piv| < h && c < w {
      var p := FindPivot(a, h, w, |piv|, c);
      if p.Some? {
        var (i, c') := p.value;
        CompanionStepTracks(a, id, t0, h, w, |piv|, i, c');
        AugmentedFromStep(a, id, h, w, piv, c, i, c', true);
        AugmentedTracks(PivotStep(a, h, w, |piv|, i, c'), CompanionStep(id, a, h, w, |piv|, i, c', true),
                        t0, h, w, piv + [c'], c' + 1);
      }
    }
  }

  // ---------------------------------------------------------------------------
  // The nullspace (lines 111-180)
  // ---------------------------------------------------------------------------

  /** The scan of line 174: the number of leading rows whose diagonal entry is 1. */
  function DiagonalRun(a: Matrix, h: nat, w: nat, i: nat): (r: nat)
    requires IsMatrix(a, h, w) && i <= h
    ensures i <= r <= h
    ensures r < h && r < w ==> a[r][r] != 1.0
    decreases h - i
  {
    if i < h && i < w && a[i][i] == 1.0 then DiagonalRun(a, h, w, i + 1) else i
  }

  /** Every row the scan passes over has a 1 on the diagonal. */
  lemma {:induction false} DiagonalRunOnes(a: Matrix, h: nat, w: nat, i: nat, k: nat)
    requires IsMatrix(a, h, w) && i <= h && i <= k < DiagonalRun(a, h, w, i)
    ensures k < w && a[k][k] == 1.0
    decreases k - i
  {
    if i < k {
      DiagonalRunOnes(a, h, w, i + 1, k);
    }
  }

  /** Transpose, reduce with the identity as companion: the reduced matrix, the companion, the pivots. */
  function NullspaceReduction(m: Matrix, fixed: bool): (r: (Matrix, Matrix, seq<nat>))
    requires |m| > 0 && Width(m) > 0 && IsMatrix(m, |m|, Width(m))
    ensures IsMatrix(r.0, Width(m), |m|) && IsMatrix(r.1, Width(m), Width(m)) && |r.2| <= Width(m)
  {
    AugmentedFrom(Transpose(m), Eye(Width(m)), Width(m), |m|, [], 0, fixed)
  }

  /**
   * `findNullspace` as written: the companion rows from the end of the diagonal
   * run of 1s on, as the columns of the result.
   */
  function NullspaceAsWritten(m: Matrix): (r: Matrix)
    requires |m| > 0 && Width(m) > 0 && IsMatrix(m, |m|, Width(m))
  {
    var (a, id, _) := NullspaceReduction(m, false);
    var rows := id[DiagonalRun(a, Width(m), |m|, 0)..];
    Transpose(rows)
  }

  /**
   * The basis `findNullspace` evidently means to return: the companion matrix
   * receives every row operation of the reduction, and the rows are taken from
   * the rank on.
   */
  function NullspaceBasis(m: Matrix): (r: Matrix)
    requires |m| > 0 && Width(m) > 0 && IsMatrix(m, |m|, Width(m))
    ensures IsMatrix(r, |r|, Width(m))
  {
    var (_, id, piv) := NullspaceReduction(m, true);
    id[|piv|..]
  }

  /** The corrected result: the basis vectors as columns. */
  function Nullspace(m: Matrix): (r: Matrix)
    requires |m| > 0 && Width(m) > 0 && IsMatrix(m, |m|, Width(m))
  {
    Transpose(NullspaceBasis(m))
  }

  /** Column `j` of the transpose of `m` is row `j` of `m`. */
  lemma ColumnOfTranspose(m: Matrix, j: nat)
    requires |m| > 0 && IsMatrix(m, |m|, Width(m)) && j < |m|
    ensures Column(Transpose(m), j) == m[j]
  {
  }

  /**
   * Every corrected basis vector `v` solves `m·v = 0`, and there are as many of
   * them as columns of `m` minus the rank found by the reduction of its transpose.
   */
  lemma NullspaceBasisInKernel(m: Matrix)
    requires |m| > 0 && Width(m) > 0 && IsMatrix(m, |m|, Width(m))
    ensures |NullspaceBasis(m)| == Width(m) - |Rref(Transpose(m), Width(m), |m|).1|
    ensures forall v :: v in NullspaceBasis(m) ==> |v| == Width(m) && IsZero(MatVec(m, v))
  {
    var h, w := Width(m), |m|;
    var t0 := Transpose(m);
    var (a, id, piv) := NullspaceReduction(m, true);
    forall k | 0 <= k < h
      ensures t0[k] == VecMat(Eye(h)[k], t0, w)
    {
      VecMatUnit(h, k, t0, w);
    }
    AugmentedTracks(t0, Eye(h), t0, h, w, [], 0);
    AugmentedIsRref(t0, Eye(h), h, w, [], 0, true);
    RrefIsRref(t0, h, w);
    forall v | v in NullspaceBasis(m)
      ensures |v| == h && IsZero(MatVec(m, v))
    {
      var k :| |piv| <= k < h && id[k] == v;
      forall j | 0 <= j < w
        ensures MatVec(m, v)[j] == 0.0
      {
        assert a[k][j] == 0.0;
        assert a[k] == VecMat(v, t0, w);
        ColumnOfTranspose(m, j);
        DotCommutes(m[j], v);
      }
    }
  }

  /** Two `h`-by-`w` matrices with the same entries are equal. */
  lemma SameEntries(a: Matrix, b: Matrix, h: nat, w: nat)
    requires IsMatrix(a, h, w) && IsMatrix(b, h, w)
    requires forall i, j :: 0 <= i < h && 0 <= j < w ==> a[i][j] == b[i][j]
    ensures a == b
  {
    forall i | 0 <= i < h
      ensures a[i] == b[i]
    {
    }
  }

  /**
   * Finding: the companion row of the pivot is never divided by the pivot. For
   * the 1-by-2 matrix [2 4], the vector returned is (-4, 1), which `m` maps to -4;
   * the corrected basis is (-2, 1).
   */
  lemma UnnormalizedCounterexample()
    ensures NullspaceAsWritten([[2.0, 4.0]]) == [[-4.0], [1.0]]
    ensures MatVec([[2.0, 4.0]], [-4.0, 1.0]) == [-4.0]
    ensures NullspaceBasis([[2.0, 4.0]]) == [[-2.0, 1.0]]
  {
    var m: Matrix := [[2.0, 4.0]];
    var t := Transpose(m);
    SameEntries(t, [[2.0], [4.0]], 2, 1);
    var e := Eye(2);
    SameEntries(e, [[1.0, 0.0], [0.0, 1.0]], 2, 2);
    assert FindPivot(t, 2, 1, 0, 0) == Some((0, 0));
    var a1 := PivotStep(t, 2, 1, 0, 0, 0);
    SameEntries(a1, [[1.0], [0.0]], 2, 1);
    var w1 := CompanionStep(e, t, 2, 1, 0, 0, 0, false);
    SameEntries(w1, [[1.0, 0.0], [-4.0, 1.0]], 2, 2);
    var f1 := CompanionStep(e, t, 2, 1, 0, 0, 0, true);
    SameEntries(f1, [[0.5, 0.0], [-2.0, 1.0]], 2, 2);
    assert Swap(t, 0, 0) == t;
    AugmentedFromStep(t, e, 2, 1, [], 0, 0, 0, false);
    AugmentedFromStep(t, e, 2, 1, [], 0, 0, 0, true);
    assert [] + [0] == [0];
    assert NullspaceReduction(m, false) == (a1, w1, [0]);
    assert NullspaceReduction(m, true) == (a1, f1, [0]);
    assert DiagonalRun(a1, 2, 1, 0) == 1;
    assert w1[1..] == [[-4.0, 1.0]];
    SameEntries(Transpose(w1[1..]), [[-4.0], [1.0]], 2, 1);
  }

  /**
   * Finding: the companion rows are updated in the first `width` columns only
   * (the number of rows of `m`), not in all of theirs. For the 1-by-3 matrix
   * [0 1 1], (0, 0, 1) is returned, which `m` maps to 1; the corrected basis is
   * (1, 0, 0), (0, -1, 1).
   */
  lemma WidthLimitCounterexample()
    ensures NullspaceAsWritten([[0.0, 1.0, 1.0]]) == [[1.0, 0.0], [0.0, 0.0], [0.0, 1.0]]
    ensures MatVec([[0.0, 1.0, 1.0]], [0.0, 0.0, 1.0]) == [1.0]
    ensures NullspaceBasis([[0.0, 1.0, 1.0]]) == [[1.0, 0.0, 0.0], [0.0, -1.0, 1.0]]
  {
    var a1: Matrix := [[1.0], [0.0], [0.0]];
    var w1: Matrix := [[0.0, 1.0, 0.0], [1.0, 0.0, 0.0], [0.0, 0.0, 1.0]];
    WidthLimitReduction();
    assert DiagonalRun(a1, 3, 1, 0) == 1;
    assert w1[1..] == [[1.0, 0.0, 0.0], [0.0, 0.0, 1.0]];
    SameEntries(Transpose(w1[1..]), [[1.0, 0.0], [0.0, 0.0], [0.0, 1.0]], 3, 2);
  }

  /** The reduction of [0 1 1], as written and corrected: one pivot, found in row 1 of the transpose. */
  lemma WidthLimitReduction()
    ensures NullspaceReduction([[0.0, 1.0, 1.0]], false) ==
      ([[1.0], [0.0], [0.0]], [[0.0, 1.0, 0.0], [1.0, 0.0, 0.0], [0.0, 0.0, 1.0]], [0])
    ensures NullspaceReduction([[0.0, 1.0, 1.0]], true) ==
      ([[1.0], [0.0], [0.0]], [[0.0, 1.0, 0.0], [1.0, 0.0, 0.0], [0.0, -1.0, 1.0]], [0])
  {
    var m: Matrix := [[0.0, 1.0, 1.0]];
    var t := Transpose(m);
    SameEntries(t, [[0.0], [1.0], [1.0]], 3, 1);
    var e := Eye(3);
    SameEntries(e, [[1.0, 0.0, 0.0], [0.0, 1.0, 0.0], [0.0, 0.0, 1.0]], 3, 3);
    assert PivotSearch(t, 3, 1, 0, 0, 1) == Some((1, 0));
    assert FindPivot(t, 3, 1, 0, 0) == Some((1, 0));
    var s := Swap(t, 1, 0);
    SameEntries(s, [[1.0], [0.0], [1.0]], 3, 1);
    var a1 := PivotStep(t, 3, 1, 0, 1, 0);
    SameEntries(a1, [[1.0], [0.0], [0.0]], 3, 1);
    var w1 := CompanionStep(e, t, 3, 1, 0, 1, 0, false);
    SameEntries(w1, [[0.0, 1.0, 0.0], [1.0, 0.0, 0.0], [0.0, 0.0, 1.0]], 3, 3);
    var f1 := CompanionStep(e, t, 3, 1, 0, 1, 0, true);
    SameEntries(f1, [[0.0, 1.0, 0.0], [1.0, 0.0, 0.0], [0.0, -1.0, 1.0]], 3, 3);
    AugmentedFromStep(t, e, 3, 1, [], 0, 1, 0, false);
    AugmentedFromStep(t, e, 3, 1, [], 0, 1, 0, true);
    assert [] + [0] == [0];
  }

  /**
   * Finding: the rank is read off as the run of 1s on the diagonal, which stops
   * short when a pivot lies right of the diagonal. For [[0, 0], [1, 2]] both
   * companion rows are returned, among them (1, 0), which `m` maps to (0, 1); the
   * corrected basis is (-2, 1).
   */
  lemma RankScanCounterexample()
    ensures NullspaceAsWritten([[0.0, 0.0], [1.0, 2.0]]) == [[1.0, -2.0], [0.0, 1.0]]
    ensures MatVec([[0.0, 0.0], [1.0, 2.0]], [1.0, 0.0]) == [0.0, 1.0]
    ensures NullspaceBasis([[0.0, 0.0], [1.0, 2.0]]) == [[-2.0, 1.0]]
  {
    var m: Matrix := [[0.0, 0.0], [1.0, 2.0]];
    var t := Transpose(m);
    SameEntries(t, [[0.0, 1.0], [0.0, 2.0]], 2, 2);
    var e := Eye(2);
    SameEntries(e, [[1.0, 0.0], [0.0, 1.0]], 2, 2);
    assert PivotSearch(t, 2, 2, 0, 0, 1) == Some((0, 1));
    assert FindPivot(t, 2, 2, 0, 0) == Some((0, 1));
    assert Swap(t, 0, 0) == t;
    var a1 := PivotStep(t, 2, 2, 0, 0, 1);
    SameEntries(a1, [[0.0, 1.0], [0.0, 0.0]], 2, 2);
    var w1 := CompanionStep(e, t, 2, 2, 0, 0, 1, false);
    SameEntries(w1, [[1.0, 0.0], [-2.0, 1.0]], 2, 2);
    var f1 := CompanionStep(e, t, 2, 2, 0, 0, 1, true);
    SameEntries(f1, [[1.0, 0.0], [-2.0, 1.0]], 2, 2);
    AugmentedFromStep(t, e, 2, 2, [], 0, 0, 1, false);
    AugmentedFromStep(t, e, 2, 2, [], 0, 0, 1, true);
    assert [] + [1] == [1];
    assert NullspaceReduction(m, false) == (a1, w1, [1]);
    assert NullspaceReduction(m, true) == (a1, f1, [1]);
    assert DiagonalRun(a1, 2, 2, 0) == 0;
    assert w1[0..] == w1;
    SameEntries(Transpose(w1), [[1.0, -2.0], [0.0, 1.0]], 2, 2);
  }
}
