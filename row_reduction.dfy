/**
 * `switchRows`, `findRREF` and `findNullspace` (scripts/decompose.js) as the
 * in-place loops they are, each proved to compute the reduction that module
 * Elimination defines and reasons about.
 */
module RowReduction {
  import opened Wrappers
  import opened Matrices
  import opened Elimination
  import opened Results

  /** `switchRows` (lines 41-46): exchange rows `i` and `j` in place. */
  method SwitchRows(m: array<seq<real>>, i: nat, j: nat)
    requires i < m.Length && j < m.Length
    modifies m
    ensures m[..] == Swap(old(m[..]), i, j)
  {
    var tmp := m[i];
    m[i] := m[j];
    m[j] := tmp;
  }

  /** Divide row `r` by `val`, entry by entry (lines 87-90). */
  method DivideRow(m: array<seq<real>>, r: nat, val: real)
    requires r < m.Length && val != 0.0
    modifies m
    ensures m[..] == old(m[..])[r := DivideBy(old(m[r]), val)]
  {
    ghost var before := m[..];
    var j := 0;
    while j < |m[r]|
      invariant 0 <= j <= |m[r]| == |before[r]|
      invariant m[..] == before[r := m[r]]
      invariant forall q :: 0 <= q < |m[r]| ==> m[r][q] == if q < j then before[r][q] / val else before[r][q]
    {
      m[r] := m[r][j := m[r][j] / val];
      j := j + 1;
    }
    assert m[r] == DivideBy(before[r], val);
  }

  /** Subtract `val` times row `r` from row `k`, in the first `limit` entries (lines 96-99 and 164-167). */
  method SubtractRowMultiple(m: array<seq<real>>, k: nat, val: real, r: nat, limit: nat)
    requires k < m.Length && r < m.Length && k != r && |m[k]| == |m[r]| && limit <= |m[k]|
    modifies m
    ensures m[..] == old(m[..])[k := SubScaledFirst(old(m[k]), val, old(m[r]), limit)]
  {
    ghost var before := m[..];
    var j := 0;
    while j < limit
      invariant 0 <= j <= limit && |m[k]| == |before[k]|
      invariant m[..] == before[k := m[k]]
      invariant forall q :: 0 <= q < |m[k]| ==> m[k][q] == if q < j then before[k][q] - val * before[r][q] else before[k][q]
    {
      m[k] := m[k][j := m[k][j] - val * m[r][j]];
      j := j + 1;
    }
    forall q | 0 <= q < |m[k]|
      ensures m[k][q] == SubScaledFirst(before[k], val, before[r], limit)[q]
    {
    }
    assert m[k] == SubScaledFirst(before[k], val, before[r], limit);
  }

  /** Subtracting in every entry is `SubScaled`. */
  lemma SubScaledFirstAll(u: seq<real>, s: real, v: seq<real>, n: nat)
    requires |u| == |v| && |u| <= n
    ensures SubScaledFirst(u, s, v, n) == SubScaled(u, s, v)
  {
  }

  /**
   * The pivot search of lines 67-78: down the column from row `curRow`, then on
   * to the next column, until a nonzero entry or the last column.
   */
  method SearchPivot(m: array<seq<real>>, height: nat, width: nat, curRow: nat, c0: nat)
    returns (i: nat, curColumn: nat, stop: bool)
    requires IsMatrix(m[..], height, width) && curRow < height && c0 < width
    ensures stop <==> FindPivot(m[..], height, width, curRow, c0).None?
    ensures !stop ==> FindPivot(m[..], height, width, curRow, c0) == Some((i, curColumn))
  {
    i, curColumn, stop := curRow, c0, false;
    while !stop && m[i][curColumn] == 0.0
      invariant curRow <= i < height && c0 <= curColumn <= width
      invariant !stop ==> (curColumn < width &&
        PivotSearch(m[..], height, width, curRow, curColumn, i) == FindPivot(m[..], height, width, curRow, c0))
      invariant stop ==> FindPivot(m[..], height, width, curRow, c0).None?
      decreases width - curColumn, height - i
    {
      i := i + 1;
      if height == i {
        i := curRow;
        curColumn := curColumn + 1;
        if width == curColumn {
          stop := true;
        }
      }
    }
  }

  /** Zero out column `c` in every row but `r`, using the normalized row `r` (lines 93-101). */
  method EliminateColumn(m: array<seq<real>>, height: nat, width: nat, r: nat, c: nat)
    requires IsMatrix(m[..], height, width) && r < height && c < width
    modifies m
    ensures IsMatrix(m[..], height, width)
    ensures forall k :: 0 <= k < height ==>
      m[k] == if k == r then old(m[r]) else SubScaled(old(m[k]), old(m[k][c]), old(m[r]))
  {
    ghost var before := m[..];
    var k := 0;
    while k < height
      invariant 0 <= k <= height && IsMatrix(m[..], height, width)
      invariant m[r] == before[r]
      invariant forall q :: 0 <= q < height ==>
        m[q] == if q < k && q != r then SubScaled(before[q], before[q][c], before[r]) else before[q]
    {
      if k != r {
        var val := m[k][c];
        SubtractRowMultiple(m, k, val, r, width);
        SubScaledFirstAll(before[k], val, before[r], width);
      }
      k := k + 1;
    }
  }

  /** One round of `findRREF` once the pivot is known: swap, normalize, eliminate (lines 83-101). */
  method PivotStepInPlace(m: array<seq<real>>, height: nat, width: nat, r: nat, i: nat, c: nat)
    requires IsMatrix(m[..], height, width) && r < height && i < height && c < width && m[i][c] != 0.0
    modifies m
    ensures m[..] == PivotStep(old(m[..]), height, width, r, i, c)
  {
    ghost var before := m[..];
    SwitchRows(m, i, r);
    var val := m[r][c];
    DivideRow(m, r, val);
    EliminateColumn(m, height, width, r, c);
    assert m[..] == PivotStep(before, height, width, r, i, c);
  }

  /**
   * `findRREF` (lines 52-106): reduces `m` in place to the reduced row echelon
   * form `Rref` and returns it as its only extra result.
   */
  method FindRREF(m: array<seq<real>>) returns (result: Decomposition)
    requires m.Length > 0 && IsMatrix(m[..], m.Length, |m[0]|)
    modifies m
    ensures m[..] == Rref(old(m[..]), m.Length, |old(m[0])|).0
    ensures result == Decomposition([], [Named("RREF of", m[..])])
  {
    var height, width := m.Length, |m[0]|;
    ghost var m0 := m[..];
    var curColumn: nat, curRow := 0, 0;
    ghost var piv: seq<nat> := [];
    while curRow < height
      invariant curRow == |piv| <= height && IsMatrix(m[..], height, width)
      invariant RrefFrom(m[..], height, width, piv, curColumn) == Rref(m0, height, width)
    {
      if width <= curColumn {
        break;
      }
      var i, col, stop := SearchPivot(m, height, width, curRow, curColumn);
      if stop {
        break;
      }
      RrefFromStep(m[..], height, width, piv, curColumn, i, col);
      PivotStepInPlace(m, height, width, curRow, i, col);
      piv := piv + [col];
      curColumn := col + 1;
      curRow := curRow + 1;
    }
    result := Decomposition([], [Named("RREF of", m[..])]);
  }

  /** The elimination of lines 160-169 for one row `k`, on the working matrix and on the companion. */
  method EliminateRowBoth(m: array<seq<real>>, id: array<seq<real>>, height: nat, width: nat, k: nat, r: nat, c: nat)
    requires m != id && IsMatrix(m[..], height, width) && IsMatrix(id[..], height, height)
    requires k < height && r < height && k != r && c < width
    modifies m, id
    ensures m[..] == old(m[..])[k := SubScaled(old(m[k]), old(m[k][c]), old(m[r]))]
    ensures id[..] == old(id[..])[k := SubScaledFirst(old(id[k]), old(m[k][c]), old(id[r]), width)]
  {
    var limit := if width < height then width else height;
    var val := m[k][c];
    SubtractRowMultiple(m, k, val, r, width);
    SubScaledFirstAll(old(m[k]), val, old(m[r]), width);
    SubtractRowMultiple(id, k, val, r, limit);
    assert id[k] == SubScaledFirst(old(id[k]), val, old(id[r]), width);
  }

  /** Rows before `k`, except row `r`, with column `c` eliminated. */
  ghost function PartlyEliminated(a: Matrix, r: nat, c: nat, k: nat): (b: Matrix)
    requires r < |a| && forall q :: 0 <= q < |a| ==> |a[q]| == |a[r]| && c < |a[q]|
    ensures |b| == |a|
  {
    seq(|a|, q requires 0 <= q < |a| => if q < k && q != r then SubScaled(a[q], a[q][c], a[r]) else a[q])
  }

  /** The companion rows before `k`, except row `r`, after the elimination. */
  ghost function PartlyEliminatedCompanion(id: Matrix, a: Matrix, r: nat, c: nat, k: nat, w: nat): (b: Matrix)
    requires |id| == |a| && r < |a| && forall q :: 0 <= q < |a| ==> |id[q]| == |id[r]| && c < |a[q]|
    ensures |b| == |id|
  {
    seq(|id|, q requires 0 <= q < |id| => if q < k && q != r then SubScaledFirst(id[q], a[q][c], id[r], w) else id[q])
  }

  /** Extending the eliminated prefix by row `k`. */
  lemma PartlyEliminatedNext(a: Matrix, r: nat, c: nat, k: nat)
    requires r < |a| && k < |a| && forall q :: 0 <= q < |a| ==> |a[q]| == |a[r]| && c < |a[q]|
    ensures PartlyEliminated(a, r, c, k + 1) ==
      PartlyEliminated(a, r, c, k)[k := if k != r then SubScaled(a[k], a[k][c], a[r]) else a[k]]
  {
  }

  /** Extending the eliminated prefix of the companion by row `k`. */
  lemma PartlyEliminatedCompanionNext(id: Matrix, a: Matrix, r: nat, c: nat, k: nat, w: nat)
    requires |id| == |a| && r < |a| && k < |a| && forall q :: 0 <= q < |a| ==> |id[q]| == |id[r]| && c < |a[q]|
    ensures PartlyEliminatedCompanion(id, a, r, c, k + 1, w) ==
      PartlyEliminatedCompanion(id, a, r, c, k, w)[k := if k != r then SubScaledFirst(id[k], a[k][c], id[r], w) else id[k]]
  {
  }

  /** The elimination of lines 160-169, on the working matrix and on the companion. */
  method EliminateBoth(m: array<seq<real>>, id: array<seq<real>>, height: nat, width: nat, r: nat, c: nat)
    requires m != id && IsMatrix(m[..], height, width) && IsMatrix(id[..], height, height) && r < height && c < width
    modifies m, id
    ensures m[..] == PartlyEliminated(old(m[..]), r, c, height)
    ensures id[..] == PartlyEliminatedCompanion(old(id[..]), old(m[..]), r, c, height, width)
  {
    ghost var before, idBefore := m[..], id[..];
    var k := 0;
    while k < height
      invariant 0 <= k <= height
      invariant m[..] == PartlyEliminated(before, r, c, k)
      invariant id[..] == PartlyEliminatedCompanion(idBefore, before, r, c, k, width)
    {
      PartlyEliminatedNext(before, r, c, k);
      PartlyEliminatedCompanionNext(idBefore, before, r, c, k, width);
      if k != r {
        EliminateRowBoth(m, id, height, width, k, r, c);
      }
      k := k + 1;
    }
  }

  /** One round of `findNullspace` once the pivot is known (lines 149-169). */
  method NullspaceStepInPlace(m: array<seq<real>>, id: array<seq<real>>, height: nat, width: nat, r: nat, i: nat, c: nat)
    requires m != id && IsMatrix(m[..], height, width) && IsMatrix(id[..], height, height)
    requires r < height && i < height && c < width && m[i][c] != 0.0
    modifies m, id
    ensures m[..] == PivotStep(old(m[..]), height, width, r, i, c)
    ensures id[..] == CompanionStep(old(id[..]), old(m[..]), height, width, r, i, c, false)
  {
    ghost var before, idBefore := m[..], id[..];
    SwitchRows(m, i, r);
    SwitchRows(id, i, r);
    ghost var swapped := m[..];
    var val := m[r][c];
    DivideRow(m, r, val);
    EliminateBoth(m, id, height, width, r, c);
    assert m[..] == PivotStep(before, height, width, r, i, c);
    assert id[..] == CompanionStep(idBefore, before, height, width, r, i, c, false);
  }

  /**
   * One round of the reduction loop of `findNullspace` (lines 119-170): look for
   * a pivot from column `c` on and, when there is one, apply the step to both matrices.
   */
  method AugmentedRound(m: array<seq<real>>, id: array<seq<real>>, height: nat, width: nat, ghost piv: seq<nat>, r: nat, c: nat)
    returns (stop: bool, col: nat)
    requires m != id && IsMatrix(m[..], height, width) && IsMatrix(id[..], height, height) && r == |piv| < height
    modifies m, id
    ensures IsMatrix(m[..], height, width) && IsMatrix(id[..], height, height)
    ensures stop ==> AugmentedFrom(old(m[..]), old(id[..]), height, width, piv, c, false) == (m[..], id[..], piv)
    ensures !stop ==> AugmentedFrom(old(m[..]), old(id[..]), height, width, piv, c, false) ==
                      AugmentedFrom(m[..], id[..], height, width, piv + [col], col + 1, false)
  {
    if width <= c {
      AugmentedFromDone(m[..], id[..], height, width, piv, c, false);
      return true, c;
    }
    var i, stopped;
    i, col, stopped := SearchPivot(m, height, width, r, c);
    if stopped {
      AugmentedFromDone(m[..], id[..], height, width, piv, c, false);
      return true, c;
    }
    ghost var a0, id0 := m[..], id[..];
    ghost var a1, id1 := PivotStep(a0, height, width, r, i, col), CompanionStep(id0, a0, height, width, r, i, col, false);
    AugmentedFromStep(a0, id0, height, width, piv, c, i, col, false);
    NullspaceStepInPlace(m, id, height, width, r, i, col);
    assert m[..] == a1 && id[..] == id1;
    stop := false;
  }

  /** The reduction loop of `findNullspace` (lines 119-170), on the working matrix and its companion. */
  method ReduceAugmented(m: array<seq<real>>, id: array<seq<real>>, height: nat, width: nat)
    requires m != id && IsMatrix(m[..], height, width) && IsMatrix(id[..], height, height)
    modifies m, id
    ensures m[..] == AugmentedFrom(old(m[..]), old(id[..]), height, width, [], 0, false).0
    ensures id[..] == AugmentedFrom(old(m[..]), old(id[..]), height, width, [], 0, false).1
  {
    ghost var target := AugmentedFrom(m[..], id[..], height, width, [], 0, false);
    var curColumn: nat, curRow, stop := 0, 0, false;
    ghost var piv: seq<nat> := [];
    while curRow < height && !stop
      invariant curRow == |piv| <= height && IsMatrix(m[..], height, width) && IsMatrix(id[..], height, height)
      invariant stop ==> target == (m[..], id[..], piv)
      invariant !stop ==> AugmentedFrom(m[..], id[..], height, width, piv, curColumn, false) == target
      decreases height - curRow, if stop then 0 else 1
    {
      var col;
      stop, col := AugmentedRound(m, id, height, width, piv, curRow, curColumn);
      if !stop {
        piv := piv + [col];
        curColumn := col + 1;
        curRow := curRow + 1;
      }
    }
    if !stop {
      AugmentedFromDone(m[..], id[..], height, width, piv, curColumn, false);
    }
  }

  /**
   * The end of `findNullspace` (lines 172-179): skip the run of 1s on the diagonal
   * of the reduced matrix, then collect the companion rows from there on.
   */
  method CollectAfterDiagonal(m: array<seq<real>>, id: array<seq<real>>, height: nat, width: nat)
    returns (nullspace: Matrix)
    requires IsMatrix(m[..], height, width) && id.Length == height
    ensures nullspace == id[DiagonalRun(m[..], height, width, 0)..]
  {
    var i := 0;
    while i < height && i < width && m[i][i] == 1.0
      invariant 0 <= i <= height
      invariant DiagonalRun(m[..], height, width, i) == DiagonalRun(m[..], height, width, 0)
    {
      i := i + 1;
    }
    ghost var start := i;
    nullspace := [];
    while i < height
      invariant start <= i <= height
      invariant nullspace == id[start..i]
    {
      nullspace := nullspace + [id[i]];
      i := i + 1;
    }
  }

  /**
   * `findNullspace` (lines 111-180) as written: reduce the transpose of `m0` with
   * the identity as companion, then return, as columns, the companion rows from
   * the end of the run of 1s on the diagonal on.
   */
  method FindNullspace(m0: Matrix) returns (result: Decomposition)
    requires |m0| > 0 && Width(m0) > 0 && IsMatrix(m0, |m0|, Width(m0))
    ensures result == Decomposition([], [Named("Nullspace of", NullspaceAsWritten(m0))])
  {
    var t := Transpose(m0);
    var height, width := |t|, |t[0]|;
    var e := Eye(height);
    var m := new seq<real>[height](k requires 0 <= k < height => t[k]);
    var id := new seq<real>[height](k requires 0 <= k < height => e[k]);
    assert m[..] == t && id[..] == e;
    ReduceAugmented(m, id, height, width);
    assert height == Width(m0) && width == |m0|;
    var nullspace := CollectAfterDiagonal(m, id, height, width);
    result := Decomposition([], [Named("Nullspace of", Transpose(nullspace))]);
  }
}
