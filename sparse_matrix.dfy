/**
 * The symmetric sparse matrix of scripts/SparseMatrix.js: skyline (profile)
 * storage of the upper triangle, column by column, and the in-place LDLt
 * factorisation that works on that storage.
 *
 * Layout. `data` holds one contiguous run per column, columns in order 0..n-1.
 * The run of column `col` starts at `diagonalIndices[col]` with the diagonal
 * value and continues upwards: rows col-1, col-2, .., down to the skyline
 * `m[col]`. Rows above the skyline are structural zeros and are not stored.
 */
module SparseSkyline {
  import opened Wrappers
  import opened Matrices

  // ---------------------------------------------------------------------------
  // The layout, as values
  // ---------------------------------------------------------------------------

  /**
   * `diagonalIndices` describes runs that tile `0 .. len-1`: the first run starts
   * at 0, and the run of column `c` holds between 1 and c+1 values, that is, its
   * skyline lies between row 0 and row c.
   */
  predicate WellFormed(diagonalIndices: seq<int>, len: int) {
    var n := |diagonalIndices|;
    (n == 0 ==> len == 0) &&
    (n > 0 ==> diagonalIndices[0] == 0) &&
    (forall c :: 0 <= c < n ==> 0 <= Top(diagonalIndices, len, c) <= c)
  }

  /** One past the last position of the run of column `c`. */
  function RunEnd(diagonalIndices: seq<int>, len: int, c: nat): int
    requires c < |diagonalIndices|
  {
    if c < |diagonalIndices| - 1 then diagonalIndices[c + 1] else len
  }

  /** The skyline of column `c`: the first row whose value is stored. */
  function Top(diagonalIndices: seq<int>, len: int, c: nat): int
    requires c < |diagonalIndices|
  {
    c - (RunEnd(diagonalIndices, len, c) - diagonalIndices[c] - 1)
  }

  /** The skyline of every column (the value `_getSkyline` computes). */
  function Skyline(diagonalIndices: seq<int>, len: int): seq<int> {
    seq(|diagonalIndices|, c requires 0 <= c < |diagonalIndices| => Top(diagonalIndices, len, c))
  }

  /** `_getIndex`: the position in `data` of the stored value at (row, col), row <= col. */
  function Idx(diagonalIndices: seq<int>, row: int, col: nat): int
    requires col < |diagonalIndices|
  {
    diagonalIndices[col] + col - row
  }

  function Max(a: int, b: int): int {
    if a < b then b else a
  }

  /** Diagonal indices grow by at least one per column, from 0. */
  lemma {:induction false} DiagonalAtLeastColumn(diagonalIndices: seq<int>, len: int, c: nat)
    requires WellFormed(diagonalIndices, len) && c < |diagonalIndices|
    ensures c <= diagonalIndices[c]
  {
    if c > 0 {
      DiagonalAtLeastColumn(diagonalIndices, len, c - 1);
      assert Top(diagonalIndices, len, c - 1) <= c - 1;
    }
  }

  /** The runs come in column order: a later column starts after an earlier one ends. */
  lemma {:induction false} RunsOrdered(diagonalIndices: seq<int>, len: int, c: nat, d: nat)
    requires WellFormed(diagonalIndices, len) && c < d < |diagonalIndices|
    ensures RunEnd(diagonalIndices, len, c) <= diagonalIndices[d]
    decreases d - c
  {
    if c + 1 < d {
      RunsOrdered(diagonalIndices, len, c + 1, d);
      assert Top(diagonalIndices, len, c + 1) <= c + 1;
    }
  }

  /** Every run starts inside `data` and ends within it; every skyline entry lies between 0 and its column. */
  lemma LayoutBounds(diagonalIndices: seq<int>, len: int)
    requires WellFormed(diagonalIndices, len)
    ensures forall c :: 0 <= c < |diagonalIndices| ==> 0 <= diagonalIndices[c] < len
    ensures forall c :: 0 <= c < |diagonalIndices| ==>
      0 <= Top(diagonalIndices, len, c) <= c && RunEnd(diagonalIndices, len, c) <= len
  {
    var n := |diagonalIndices|;
    forall c | 0 <= c < n
      ensures 0 <= diagonalIndices[c] < len && RunEnd(diagonalIndices, len, c) <= len
    {
      DiagonalAtLeastColumn(diagonalIndices, len, c);
      assert Top(diagonalIndices, len, c) <= c;
      assert Top(diagonalIndices, len, n - 1) <= n - 1;
      if c < n - 1 {
        RunsOrdered(diagonalIndices, len, c, n - 1);
      }
    }
  }

  /** Diagonal indices strictly increase with the column. */
  lemma DiagonalsIncrease(diagonalIndices: seq<int>, len: int)
    requires WellFormed(diagonalIndices, len)
    ensures forall c, d :: 0 <= c < d < |diagonalIndices| ==> diagonalIndices[c] < diagonalIndices[d]
  {
    forall c, d | 0 <= c < d < |diagonalIndices|
      ensures diagonalIndices[c] < diagonalIndices[d]
    {
      RunsOrdered(diagonalIndices, len, c, d);
      assert Top(diagonalIndices, len, c) <= c;
    }
  }

  /** A stored position (skyline <= row <= col) lies inside the run of its column. */
  lemma IndexInColumnRun(diagonalIndices: seq<int>, len: int, row: int, col: nat)
    requires WellFormed(diagonalIndices, len) && col < |diagonalIndices|
    requires Top(diagonalIndices, len, col) <= row <= col
    ensures 0 <= diagonalIndices[col] <= Idx(diagonalIndices, row, col) < RunEnd(diagonalIndices, len, col) <= len
  {
    LayoutBounds(diagonalIndices, len);
  }

  /** The number of stored values of columns 0 .. k-1: the sum of (c - m[c] + 1). */
  function ProfileSize(diagonalIndices: seq<int>, len: int, k: nat): int
    requires k <= |diagonalIndices|
  {
    if k == 0 then 0
    else ProfileSize(diagonalIndices, len, k - 1) + (k - 1 - Top(diagonalIndices, len, k - 1) + 1)
  }

  /** The representation invariant: `data.length == Σ_col (col - m[col] + 1)`. */
  lemma {:induction false} ProfileSizeIsLength(diagonalIndices: seq<int>, len: int)
    requires WellFormed(diagonalIndices, len)
    ensures ProfileSize(diagonalIndices, len, |diagonalIndices|) == len
  {
    var n := |diagonalIndices|;
    if n > 0 {
      ProfileSizePrefix(diagonalIndices, len, n);
    }
  }

  lemma {:induction false} ProfileSizePrefix(diagonalIndices: seq<int>, len: int, k: nat)
    requires WellFormed(diagonalIndices, len) && 0 < k <= |diagonalIndices|
    ensures ProfileSize(diagonalIndices, len, k) == RunEnd(diagonalIndices, len, k - 1)
  {
    if k > 1 {
      ProfileSizePrefix(diagonalIndices, len, k - 1);
    }
  }

  /** Appending a column to a layout leaves the runs of the earlier columns alone. */
  lemma ExtendLayout(diagonalIndices: seq<int>, len: int, newLen: int, c: nat)
    requires c < |diagonalIndices|
    ensures RunEnd(diagonalIndices + [len], newLen, c) == RunEnd(diagonalIndices, len, c)
    ensures Top(diagonalIndices + [len], newLen, c) == Top(diagonalIndices, len, c)
  {
  }

  // ---------------------------------------------------------------------------
  // _getSkyline
  // ---------------------------------------------------------------------------

  /**
   * `_getSkyline`: every column but the last reads its run length off the next
   * diagonal index, the last one off the length of `data`. With no columns the
   * source's single write goes to the array property "-1", which no index ever
   * reads; the model returns the empty skyline.
   */
  method GetSkyline(diagonalIndices: seq<int>, dataLength: int) returns (m: seq<int>)
    ensures m == Skyline(diagonalIndices, dataLength)
    ensures WellFormed(diagonalIndices, dataLength) ==> forall c :: 0 <= c < |m| ==> 0 <= m[c] <= c
  {
    var n := |diagonalIndices|;
    m := [];
    var col := 0;
    while col < n - 1
      invariant 0 <= col <= (if n == 0 then 0 else n - 1)
      invariant |m| == col
      invariant forall c :: 0 <= c < col ==> m[c] == Top(diagonalIndices, dataLength, c)
    {
      m := m + [col - (diagonalIndices[col + 1] - diagonalIndices[col] - 1)];
      col := col + 1;
    }
    if n > 0 {
      m := m + [col - (dataLength - diagonalIndices[n - 1] - 1)];
    }
    if WellFormed(diagonalIndices, dataLength) {
      LayoutBounds(diagonalIndices, dataLength);
    }
  }

  // ---------------------------------------------------------------------------
  // The in-place LDLt, as a function of the stored values
  // ---------------------------------------------------------------------------

  /** x - a·b: one update of a g value (lines 126-127). */
  function MinusProduct(x: real, a: real, b: real): real {
    x - a * b
  }

  /** x - l^2·p: one update of a diagonal value (lines 138-139). */
  function MinusSquareTimes(x: real, l: real, p: real): real {
    x - l * l * p
  }

  /**
   * Lines 124-128: subtract from the value at (row, col) the products of the
   * already factored (r, row) and the g-values (r, col), for r from `r` to row-1.
   */
  function UpdateG(d: seq<real>, diagonalIndices: seq<int>, col: nat, row: nat, r: int): (e: seq<real>)
    requires WellFormed(diagonalIndices, |d|) && row < col < |diagonalIndices|
    requires Top(diagonalIndices, |d|, col) <= row
    requires Max(Top(diagonalIndices, |d|, col), Top(diagonalIndices, |d|, row)) <= r <= row
    ensures |e| == |d|
    decreases row - r
  {
    LayoutBounds(diagonalIndices, |d|);
    if r == row then d
    else
      var i := Idx(diagonalIndices, row, col);
      var e := d[i := MinusProduct(d[i], d[Idx(diagonalIndices, r, row)], d[Idx(diagonalIndices, r, col)])];
      UpdateG(e, diagonalIndices, col, row, r + 1)
  }

  /** Lines 121-129: the g-values of column `col`, rows `row` .. col-1. */
  function GValues(d: seq<real>, diagonalIndices: seq<int>, col: nat, row: nat): (e: seq<real>)
    requires WellFormed(diagonalIndices, |d|) && 0 < col < |diagonalIndices|
    requires Top(diagonalIndices, |d|, col) <= row <= col
    ensures |e| == |d|
    decreases col - row
  {
    LayoutBounds(diagonalIndices, |d|);
    if row == col then d
    else
      var lo := Max(Top(diagonalIndices, |d|, col), Top(diagonalIndices, |d|, row));
      GValues(UpdateG(d, diagonalIndices, col, row, lo), diagonalIndices, col, row + 1)
  }

  /**
   * Lines 132-134: divide the g-value at (row, col) by the diagonal of `row`, for
   * rows `row` .. col-1. `None` when a divisor is zero: there the source produces a
   * non-finite number, which this model does not follow.
   */
  function ScaleG(d: seq<real>, diagonalIndices: seq<int>, col: nat, row: nat): (e: Option<seq<real>>)
    requires WellFormed(diagonalIndices, |d|) && 0 < col < |diagonalIndices|
    requires Top(diagonalIndices, |d|, col) <= row <= col
    ensures e.Some? ==> |e.value| == |d|
    ensures e.None? <==> exists k :: row <= k < col && Pivot(d, diagonalIndices, k) == 0.0
    decreases col - row
  {
    LayoutBounds(diagonalIndices, |d|);
    if row == col then Some(d)
    else
      var p := Pivot(d, diagonalIndices, row);
      if p == 0.0 then None
      else
        var i := Idx(diagonalIndices, row, col);
        var e := d[i := d[i] / p];
        DiagonalsIncrease(diagonalIndices, |d|);
        assert forall k :: row < k < col ==> Pivot(e, diagonalIndices, k) == Pivot(d, diagonalIndices, k);
        ScaleG(e, diagonalIndices, col, row + 1)
  }

  /** D(k): the stored diagonal value of column `k`. */
  function Pivot(d: seq<real>, diagonalIndices: seq<int>, k: nat): real
    requires WellFormed(diagonalIndices, |d|) && k < |diagonalIndices|
  {
    LayoutBounds(diagonalIndices, |d|);
    d[diagonalIndices[k]]
  }

  /** Lines 137-140: subtract L(r, col)^2 · D(r) from the diagonal of `col`, for r from `r` to col-1. */
  function UpdateD(d: seq<real>, diagonalIndices: seq<int>, col: nat, r: nat): (e: seq<real>)
    requires WellFormed(diagonalIndices, |d|) && 0 < col < |diagonalIndices|
    requires Top(diagonalIndices, |d|, col) <= r <= col
    ensures |e| == |d|
    decreases col - r
  {
    LayoutBounds(diagonalIndices, |d|);
    if r == col then d
    else
      var i := Idx(diagonalIndices, r, col);
      var k := diagonalIndices[col];
      UpdateD(d[k := MinusSquareTimes(d[k], d[i], d[diagonalIndices[r]])], diagonalIndices, col, r + 1)
  }

  /** One pass of the outer loop (lines 121-140) for column `col`. */
  function FactorColumn(d: seq<real>, diagonalIndices: seq<int>, col: nat): (e: Option<seq<real>>)
    requires WellFormed(diagonalIndices, |d|) && 0 < col < |diagonalIndices|
    ensures e.Some? ==> |e.value| == |d|
  {
    LayoutBounds(diagonalIndices, |d|);
    var t := Top(diagonalIndices, |d|, col);
    match ScaleG(GValues(d, diagonalIndices, col, t), diagonalIndices, col, t)
    case None => None
    case Some(g) => Some(UpdateD(g, diagonalIndices, col, t))
  }

  /** The outer loop from column `col` on. */
  function FactorFrom(d: seq<real>, diagonalIndices: seq<int>, col: nat): (e: Option<seq<real>>)
    requires WellFormed(diagonalIndices, |d|) && 0 < col <= |diagonalIndices|
    ensures e.Some? ==> |e.value| == |d|
    decreases |diagonalIndices| - col
  {
    if col == |diagonalIndices| then Some(d)
    else
      match FactorColumn(d, diagonalIndices, col)
      case None => None
      case Some(e) => FactorFrom(e, diagonalIndices, col + 1)
  }

  /** The stored values after `LDLt` (lines 110-144): L above the diagonal, D on it. */
  function Factorization(d: seq<real>, diagonalIndices: seq<int>): (e: Option<seq<real>>)
    requires WellFormed(diagonalIndices, |d|)
    ensures e.Some? ==> |e.value| == |d|
  {
    if |diagonalIndices| == 0 then Some(d) else FactorFrom(d, diagonalIndices, 1)
  }

  // ---------------------------------------------------------------------------
  // What the factorisation writes
  // ---------------------------------------------------------------------------

  /** `e` equals `d` outside the positions lo .. hi-1. */
  ghost predicate SameOutside(d: seq<real>, e: seq<real>, lo: int, hi: int) {
    |d| == |e| && forall k :: 0 <= k < |d| && !(lo <= k < hi) ==> d[k] == e[k]
  }

  lemma {:induction false} UpdateGFrame(d: seq<real>, diagonalIndices: seq<int>, col: nat, row: nat, r: int)
    requires WellFormed(diagonalIndices, |d|) && row < col < |diagonalIndices|
    requires Top(diagonalIndices, |d|, col) <= row
    requires Max(Top(diagonalIndices, |d|, col), Top(diagonalIndices, |d|, row)) <= r <= row
    ensures SameOutside(d, UpdateG(d, diagonalIndices, col, row, r), diagonalIndices[col], RunEnd(diagonalIndices, |d|, col))
    decreases row - r
  {
    LayoutBounds(diagonalIndices, |d|);
    if r < row {
      var i := Idx(diagonalIndices, row, col);
      var e := d[i := MinusProduct(d[i], d[Idx(diagonalIndices, r, row)], d[Idx(diagonalIndices, r, col)])];
      UpdateGFrame(e, diagonalIndices, col, row, r + 1);
    }
  }

  lemma {:induction false} GValuesFrame(d: seq<real>, diagonalIndices: seq<int>, col: nat, row: nat)
    requires WellFormed(diagonalIndices, |d|) && 0 < col < |diagonalIndices|
    requires Top(diagonalIndices, |d|, col) <= row <= col
    ensures SameOutside(d, GValues(d, diagonalIndices, col, row), diagonalIndices[col], RunEnd(diagonalIndices, |d|, col))
    decreases col - row
  {
    LayoutBounds(diagonalIndices, |d|);
    if row < col {
      var lo := Max(Top(diagonalIndices, |d|, col), Top(diagonalIndices, |d|, row));
      UpdateGFrame(d, diagonalIndices, col, row, lo);
      GValuesFrame(UpdateG(d, diagonalIndices, col, row, lo), diagonalIndices, col, row + 1);
    }
  }

  lemma {:induction false} ScaleGFrame(d: seq<real>, diagonalIndices: seq<int>, col: nat, row: nat)
    requires WellFormed(diagonalIndices, |d|) && 0 < col < |diagonalIndices|
    requires Top(diagonalIndices, |d|, col) <= row <= col
    requires ScaleG(d, diagonalIndices, col, row).Some?
    ensures SameOutside(d, ScaleG(d, diagonalIndices, col, row).value, diagonalIndices[col], RunEnd(diagonalIndices, |d|, col))
    decreases col - row
  {
    LayoutBounds(diagonalIndices, |d|);
    if row < col {
      var p := d[diagonalIndices[row]];
      var i := Idx(diagonalIndices, row, col);
      ScaleGFrame(d[i := d[i] / p], diagonalIndices, col, row + 1);
    }
  }

  lemma {:induction false} UpdateDFrame(d: seq<real>, diagonalIndices: seq<int>, col: nat, r: nat)
    requires WellFormed(diagonalIndices, |d|) && 0 < col < |diagonalIndices|
    requires Top(diagonalIndices, |d|, col) <= r <= col
    ensures SameOutside(d, UpdateD(d, diagonalIndices, col, r), diagonalIndices[col], RunEnd(diagonalIndices, |d|, col))
    decreases col - r
  {
    LayoutBounds(diagonalIndices, |d|);
    if r < col {
      var i := Idx(diagonalIndices, r, col);
      var k := diagonalIndices[col];
      var e := d[k := MinusSquareTimes(d[k], d[i], d[diagonalIndices[r]])];
      UpdateDFrame(e, diagonalIndices, col, r + 1);
      assert SameOutside(d, e, diagonalIndices[col], RunEnd(diagonalIndices, |d|, col));
    }
  }

  /** The pass for column `col` writes only inside the run of column `col`. */
  lemma FactorColumnFrame(d: seq<real>, diagonalIndices: seq<int>, col: nat)
    requires WellFormed(diagonalIndices, |d|) && 0 < col < |diagonalIndices|
    requires FactorColumn(d, diagonalIndices, col).Some?
    ensures SameOutside(d, FactorColumn(d, diagonalIndices, col).value, diagonalIndices[col], RunEnd(diagonalIndices, |d|, col))
  {
    LayoutBounds(diagonalIndices, |d|);
    var t := Top(diagonalIndices, |d|, col);
    var g := GValues(d, diagonalIndices, col, t);
    GValuesFrame(d, diagonalIndices, col, t);
    ScaleGFrame(g, diagonalIndices, col, t);
    UpdateDFrame(ScaleG(g, diagonalIndices, col, t).value, diagonalIndices, col, t);
  }

  /** The passes from column `col` on leave every position before that column's run alone. */
  lemma {:induction false} FactorFromFrame(d: seq<real>, diagonalIndices: seq<int>, col: nat)
    requires WellFormed(diagonalIndices, |d|) && 0 < col <= |diagonalIndices|
    requires FactorFrom(d, diagonalIndices, col).Some?
    ensures col < |diagonalIndices| ==> SameOutside(d, FactorFrom(d, diagonalIndices, col).value, diagonalIndices[col], |d|)
    decreases |diagonalIndices| - col
  {
    if col < |diagonalIndices| {
      var e := FactorColumn(d, diagonalIndices, col).value;
      FactorColumnFrame(d, diagonalIndices, col);
      FactorFromFrame(e, diagonalIndices, col + 1);
    }
  }

  /**
   * `LDLt` never changes the run of column 0, since its outer loop starts at
   * column 1: in particular D(0) is the stored (0, 0) value.
   */
  lemma FactorizationKeepsColumnZero(d: seq<real>, diagonalIndices: seq<int>)
    requires WellFormed(diagonalIndices, |d|) && Factorization(d, diagonalIndices).Some?
    ensures |diagonalIndices| > 0 ==>
      SameOutside(d, Factorization(d, diagonalIndices).value, RunEnd(diagonalIndices, |d|, 0), |d|)
  {
    if |diagonalIndices| > 0 {
      FactorFromFrame(d, diagonalIndices, 1);
    }
  }

  /** A pass fails exactly when the diagonal of a row of the column's profile is zero. */
  lemma FactorColumnDefined(d: seq<real>, diagonalIndices: seq<int>, col: nat)
    requires WellFormed(diagonalIndices, |d|) && 0 < col < |diagonalIndices|
    ensures FactorColumn(d, diagonalIndices, col).None? <==>
      exists k :: Top(diagonalIndices, |d|, col) <= k < col && Pivot(d, diagonalIndices, k) == 0.0
  {
    LayoutBounds(diagonalIndices, |d|);
    DiagonalsIncrease(diagonalIndices, |d|);
    var t := Top(diagonalIndices, |d|, col);
    var g := GValues(d, diagonalIndices, col, t);
    GValuesFrame(d, diagonalIndices, col, t);
    assert forall k :: t <= k < col ==> Pivot(g, diagonalIndices, k) == Pivot(d, diagonalIndices, k);
  }

  /** On [[4,2],[2,5]], stored as [4, 5, 2], the factorisation yields D = (4, 4) and L(0,1) = 0.5. */
  lemma FactorizationExample()
    ensures Factorization([4.0, 5.0, 2.0], [0, 1]) == Some([4.0, 4.0, 0.5])
  {
    var diag := [0, 1];
    var d := [4.0, 5.0, 2.0];
    assert WellFormed(diag, 3);
    assert Top(diag, 3, 1) == 0 && Top(diag, 3, 0) == 0;
    assert UpdateG(d, diag, 1, 0, 0) == d;
    assert GValues(d, diag, 1, 1) == d;
    assert GValues(d, diag, 1, 0) == d;
    var s := [4.0, 5.0, 0.5];
    assert d[2 := d[2] / 4.0] == s;
    assert ScaleG(s, diag, 1, 1) == Some(s);
    assert ScaleG(d, diag, 1, 0) == Some(s);
    var f := [4.0, 4.0, 0.5];
    assert UpdateD(f, diag, 1, 1) == f;
    assert UpdateD(s, diag, 1, 0) == f;
    assert FactorColumn(d, diag, 1) == Some(f);
    assert FactorFrom(f, diag, 2) == Some(f);
  }

  // ---------------------------------------------------------------------------
  // The layout fromDense produces
  // ---------------------------------------------------------------------------

  /** The last row the leading-zero scan of column `col` may reach (lines 53-55). */
  function ScanLimit(col: nat): nat {
    if col == 0 then 0 else col - 1
  }

  /**
   * Lines 53-55: the number of zeros at the top of column `col`, scanning from row
   * `t` and never past row col-2, so the entry (col-1, col) is always stored.
   */
  function LeadingZeros(a: Matrix, col: nat, t: nat): (z: nat)
    requires IsSquare(a) && col < |a| && t <= ScanLimit(col)
    ensures t <= z <= ScanLimit(col)
    decreases col - t
  {
    if t < col - 1 && a[t][col] == 0.0 then LeadingZeros(a, col, t + 1) else t
  }

  /** The rows the scan passes over are zero, and it stops at a nonzero entry or at row col-1. */
  lemma {:induction false} LeadingZerosSpec(a: Matrix, col: nat, t: nat)
    requires IsSquare(a) && col < |a| && t <= ScanLimit(col)
    ensures forall r :: t <= r < LeadingZeros(a, col, t) ==> a[r][col] == 0.0
    ensures LeadingZeros(a, col, t) < col - 1 ==> a[LeadingZeros(a, col, t)][col] != 0.0
    decreases col - t
  {
    if t < col - 1 && a[t][col] == 0.0 {
      LeadingZerosSpec(a, col, t + 1);
    }
  }

  /** The values `fromDense` pushes for column `col`: the diagonal, then upwards to the first stored row. */
  function ColumnRun(a: Matrix, col: nat): (run: seq<real>)
    requires IsSquare(a) && col < |a|
  {
    var z := LeadingZeros(a, col, 0);
    seq(col - z + 1, k requires 0 <= k < col - z + 1 => a[col - k][col])
  }

  /** `data` after the first `k` columns. */
  function Stacked(a: Matrix, k: nat): seq<real>
    requires IsSquare(a) && k <= |a|
  {
    if k == 0 then [] else Stacked(a, k - 1) + ColumnRun(a, k - 1)
  }

  /** `diagonalIndices` after the first `k` columns. */
  function Diagonals(a: Matrix, k: nat): seq<int>
    requires IsSquare(a) && k <= |a|
  {
    if k == 0 then [] else Diagonals(a, k - 1) + [|Stacked(a, k - 1)|]
  }

  /** The diagonal index of column `c` is the number of values stored before it. */
  lemma {:induction false} DiagonalsAt(a: Matrix, k: nat)
    requires IsSquare(a) && k <= |a|
    ensures |Diagonals(a, k)| == k
    ensures forall c :: 0 <= c < k ==> Diagonals(a, k)[c] == |Stacked(a, c)|
  {
    if k > 0 {
      DiagonalsAt(a, k - 1);
    }
  }

  /** The values of the first `c` columns stay at the front of `data` as further columns are pushed. */
  lemma {:induction false} StackedPrefix(a: Matrix, c: nat, k: nat)
    requires IsSquare(a) && c <= k <= |a|
    ensures |Stacked(a, c)| <= |Stacked(a, k)| && Stacked(a, k)[..|Stacked(a, c)|] == Stacked(a, c)
    decreases k - c
  {
    if c < k {
      StackedPrefix(a, c + 1, k);
      var s, s' := Stacked(a, c), Stacked(a, c + 1);
      assert s'[..|s|] == s;
      assert Stacked(a, k)[..|s|] == Stacked(a, k)[..|s'|][..|s|];
    }
  }

  /** Pushing column `c` appends its run of c - LeadingZeros(a, c, 0) + 1 values. */
  lemma StackedStep(a: Matrix, c: nat)
    requires IsSquare(a) && c < |a|
    ensures |Stacked(a, c + 1)| == |Stacked(a, c)| + c - LeadingZeros(a, c, 0) + 1
    ensures forall r :: LeadingZeros(a, c, 0) <= r <= c ==> Stacked(a, c + 1)[|Stacked(a, c)| + c - r] == a[r][c]
  {
    var s := Stacked(a, c);
    var run := ColumnRun(a, c);
    assert Stacked(a, c + 1) == s + run;
    forall r | LeadingZeros(a, c, 0) <= r <= c
      ensures Stacked(a, c + 1)[|s| + c - r] == a[r][c]
    {
      assert (s + run)[|s| + (c - r)] == run[c - r];
    }
  }

  /** The run of column `c` in the layout after `k` columns: where it ends, and its skyline. */
  lemma ColumnRunBounds(a: Matrix, k: nat, c: nat)
    requires IsSquare(a) && c < k <= |a|
    ensures |Diagonals(a, k)| == k && Diagonals(a, k)[c] == |Stacked(a, c)|
    ensures RunEnd(Diagonals(a, k), |Stacked(a, k)|, c) == |Stacked(a, c + 1)| <= |Stacked(a, k)|
    ensures Top(Diagonals(a, k), |Stacked(a, k)|, c) == LeadingZeros(a, c, 0)
  {
    var d := Diagonals(a, k);
    var s, s' := Stacked(a, c), Stacked(a, c + 1);
    DiagonalsAt(a, k);
    RunEndAt(a, k, c);
    StackedStep(a, c);
    assert Top(d, |Stacked(a, k)|, c) == c - (|s'| - |s| - 1);
  }

  /** The run of column `c` ends where the values of the first c+1 columns end. */
  lemma RunEndAt(a: Matrix, k: nat, c: nat)
    requires IsSquare(a) && c < k <= |a|
    ensures |Diagonals(a, k)| == k
    ensures RunEnd(Diagonals(a, k), |Stacked(a, k)|, c) == |Stacked(a, c + 1)| <= |Stacked(a, k)|
  {
    var d, t := Diagonals(a, k), Stacked(a, k);
    DiagonalsAt(a, k);
    StackedGrows(a, c + 1, k);
    if c + 1 < k {
      assert d[c + 1] == |Stacked(a, c + 1)|;
      assert RunEnd(d, |t|, c) == d[c + 1];
    } else {
      assert RunEnd(d, |t|, c) == |t|;
    }
  }

  /** Pushing columns only lengthens `data`. */
  lemma {:induction false} StackedGrows(a: Matrix, c: nat, k: nat)
    requires IsSquare(a) && c <= k <= |a|
    ensures |Stacked(a, c)| <= |Stacked(a, k)|
    decreases k - c
  {
    if c < k {
      StackedGrows(a, c + 1, k);
    }
  }

  /** The stored value of (r, c) in the layout after `k` columns. */
  lemma StoredValue(a: Matrix, k: nat, c: nat, r: nat)
    requires IsSquare(a) && c < k <= |a| && LeadingZeros(a, c, 0) <= r <= c
    ensures |Diagonals(a, k)| == k
    ensures 0 <= Idx(Diagonals(a, k), r, c) < |Stacked(a, k)| && Stacked(a, k)[Idx(Diagonals(a, k), r, c)] == a[r][c]
  {
    var s, s', t := Stacked(a, c), Stacked(a, c + 1), Stacked(a, k);
    var i := |s| + c - r;
    StackedStep(a, c);
    assert s'[i] == a[r][c];
    StackedPrefix(a, c + 1, k);
    assert t[i] == t[..|s'|][i];
    DiagonalsAt(a, k);
    assert Idx(Diagonals(a, k), r, c) == i;
  }

  /** The diagonal indices `fromDense` builds describe runs that tile its data. */
  lemma StackedWellFormed(a: Matrix, k: nat)
    requires IsSquare(a) && k <= |a|
    ensures |Diagonals(a, k)| == k
    ensures WellFormed(Diagonals(a, k), |Stacked(a, k)|)
  {
    DiagonalsAt(a, k);
    forall c | 0 <= c < k
      ensures 0 <= Top(Diagonals(a, k), |Stacked(a, k)|, c) <= c
    {
      ColumnRunBounds(a, k, c);
    }
    if k > 0 {
      assert Stacked(a, 0) == [];
    } else {
      assert Stacked(a, k) == [];
    }
  }

  /** Every stored position of the layout holds the dense entry. */
  lemma StackedValues(a: Matrix, k: nat)
    requires IsSquare(a) && k <= |a|
    ensures |Diagonals(a, k)| == k
    ensures forall c, r :: 0 <= c < k && LeadingZeros(a, c, 0) <= r <= c ==>
      0 <= Idx(Diagonals(a, k), r, c) < |Stacked(a, k)| && Stacked(a, k)[Idx(Diagonals(a, k), r, c)] == a[r][c]
  {
    DiagonalsAt(a, k);
    forall c, r | 0 <= c < k && LeadingZeros(a, c, 0) <= r <= c
      ensures 0 <= Idx(Diagonals(a, k), r, c) < |Stacked(a, k)| && Stacked(a, k)[Idx(Diagonals(a, k), r, c)] == a[r][c]
    {
      StoredValue(a, k, c, r);
    }
  }

  /**
   * The layout `fromDense` builds is well formed, its skyline is the leading-zero
   * count of each column, and every stored position holds the dense entry.
   */
  lemma StackedLayout(a: Matrix, k: nat)
    requires IsSquare(a) && k <= |a|
    ensures |Diagonals(a, k)| == k
    ensures WellFormed(Diagonals(a, k), |Stacked(a, k)|)
    ensures forall c :: 0 <= c < k ==> Top(Diagonals(a, k), |Stacked(a, k)|, c) == LeadingZeros(a, c, 0)
    ensures forall c, r :: 0 <= c < k && LeadingZeros(a, c, 0) <= r <= c ==>
      0 <= Idx(Diagonals(a, k), r, c) < |Stacked(a, k)| && Stacked(a, k)[Idx(Diagonals(a, k), r, c)] == a[r][c]
  {
    StackedWellFormed(a, k);
    forall c | 0 <= c < k
      ensures Top(Diagonals(a, k), |Stacked(a, k)|, c) == LeadingZeros(a, c, 0)
    {
      ColumnRunBounds(a, k, c);
    }
    StackedValues(a, k);
  }

  // ---------------------------------------------------------------------------
  // The object
  // ---------------------------------------------------------------------------

  class SparseMatrix {
    /** `_data`: the stored values; `LDLt` overwrites them in place. */
    const data: array<real>
    /** `_diagonalIndices`. */
    const diagonalIndices: seq<int>
    /** `_n`: the number of rows and columns. */
    const n: nat
    /** `_m`: the skyline, derived once by the constructor. */
    const m: seq<int>

    ghost predicate Valid() {
      n == |diagonalIndices| &&
      WellFormed(diagonalIndices, data.Length) &&
      m == Skyline(diagonalIndices, data.Length)
    }

    /** The constructor (lines 16-29): it keeps `data` itself, not a copy. */
    constructor (data: array<real>, diagonalIndices: seq<int>)
      requires WellFormed(diagonalIndices, data.Length)
      ensures Valid() && this.data == data && this.diagonalIndices == diagonalIndices
      ensures n == |diagonalIndices|
    {
      this.data := data;
      this.diagonalIndices := diagonalIndices;
      this.n := |diagonalIndices|;
      var m := GetSkyline(diagonalIndices, data.Length);
      this.m := m;
    }

    /** The stored upper triangle of `a` is what this matrix holds, structural zeros included. */
    ghost predicate Represents(a: Matrix)
      reads data
      requires Valid()
    {
      IsMatrix(a, n, n) &&
      (forall col, r :: 0 <= col < n && 0 <= r < m[col] ==> a[r][col] == 0.0) &&
      (forall col, r :: 0 <= col < n && m[col] <= r <= col ==>
         0 <= Idx(diagonalIndices, r, col) < data.Length && data[Idx(diagonalIndices, r, col)] == a[r][col])
    }

    /**
     * `getElem` (lines 162-180): `None` (undefined) past the last row or column;
     * otherwise the pair is put in upper-triangle order, and a row above the
     * skyline reads 0. Only the upper bound is tested, so a negative row or
     * column next to an index in range lies "above the skyline" and reads 0;
     * when both are negative, `_m[col]` and `_getIndex` are undefined and so
     * is the result.
     */
    function GetElem(row: int, col: int): (r: Option<real>)
      reads data
      requires Valid()
      ensures r.None? <==> row >= n || col >= n || (row < 0 && col < 0)
      ensures 0 <= row < n && col < 0 ==> r == Some(0.0)
      ensures row < 0 && 0 <= col < n ==> r == Some(0.0)
    {
      if row >= n || col >= n then None
      else
        var lo := if col < row then col else row;
        var hi := if col < row then row else col;
        if hi < 0 then None
        else if lo < m[hi] then Some(0.0)
        else
          IndexInColumnRun(diagonalIndices, data.Length, lo, hi);
          Some(data[Idx(diagonalIndices, lo, hi)])
    }

    /**
     * The lookup the comment of lines 156-161 promises: undefined for every
     * index outside the matrix, negative ones included, and `getElem` inside it.
     */
    function GetElemChecked(row: int, col: int): (r: Option<real>)
      reads data
      requires Valid()
      ensures r.None? <==> !(0 <= row < n && 0 <= col < n)
      ensures r.Some? ==> r == GetElem(row, col)
    {
      if 0 <= row < n && 0 <= col < n then GetElem(row, col) else None
    }

    /**
     * `getElem` as written answers 0 for a negative index next to one in
     * range, where the documented lookup is undefined.
     */
    lemma NegativeIndexReadsZero(row: int, col: int)
      requires Valid() && 0 <= row < n && col < 0
      ensures GetElem(row, col) == Some(0.0) && GetElem(col, row) == Some(0.0)
      ensures GetElemChecked(row, col).None? && GetElemChecked(col, row).None?
    {
    }

    /** `getElem` is symmetric. */
    lemma GetElemSymmetric(row: int, col: int)
      requires Valid()
      ensures GetElem(row, col) == GetElem(col, row)
    {
    }

    /** Above the skyline of the later column, `getElem` reads a structural zero. */
    lemma GetElemStructuralZero(row: nat, col: nat)
      requires Valid() && row < n && col < n
      requires (if row < col then row < m[col] else col < m[row])
      ensures GetElem(row, col) == Some(0.0)
    {
    }

    /** A matrix that represents `a` reads back the upper triangle of `a`, mirrored below the diagonal. */
    lemma GetElemOfRepresented(a: Matrix)
      requires Valid() && Represents(a)
      ensures forall r, c :: 0 <= r < n && 0 <= c < n ==>
        GetElem(r, c) == Some(if r <= c then a[r][c] else a[c][r])
    {
    }

    /** A matrix laid out as `fromDense` lays out `a` represents `a`. */
    lemma RepresentsLayout(a: Matrix)
      requires Valid() && IsSquare(a) && n == |a|
      requires data[..] == Stacked(a, n) && diagonalIndices == Diagonals(a, n)
      ensures forall col :: 0 <= col < n ==> m[col] == LeadingZeros(a, col, 0)
      ensures Represents(a)
    {
      StackedLayout(a, n);
      forall col | 0 <= col < n {
        LeadingZerosSpec(a, col, 0);
      }
      forall col, r | 0 <= col < n && m[col] <= r <= col
        ensures 0 <= Idx(diagonalIndices, r, col) < data.Length && data[Idx(diagonalIndices, r, col)] == a[r][col]
      {
        assert data[Idx(diagonalIndices, r, col)] == data[..][Idx(diagonalIndices, r, col)];
      }
    }

    /** `toDense` (lines 70-86): every entry read through `getElem`. */
    method ToDense() returns (dense: Matrix)
      requires Valid()
      ensures IsMatrix(dense, n, n)
      ensures forall r, c :: 0 <= r < n && 0 <= c < n ==> GetElem(r, c) == Some(dense[r][c])
    {
      dense := [];
      var row := 0;
      while row < n
        invariant 0 <= row <= n
        invariant IsMatrix(dense, row, n)
        invariant forall r, c :: 0 <= r < row && 0 <= c < n ==> GetElem(r, c) == Some(dense[r][c])
      {
        var line: seq<real> := [];
        var col := 0;
        while col < n
          invariant 0 <= col <= n && |line| == col
          invariant forall c :: 0 <= c < col ==> GetElem(row, c) == Some(line[c])
        {
          line := line + [GetElem(row, col).value];
          col := col + 1;
        }
        dense := dense + [line];
        row := row + 1;
      }
    }

    /**
     * `LDLt` (lines 110-144), in place: the stored values become the factorisation
     * (the pivots it divides by must be nonzero), and the matrix itself is returned.
     */
    method LDLt() returns (self: SparseMatrix)
      requires Valid()
      requires Factorization(data[..], diagonalIndices).Some?
      modifies data
      ensures self == this && Valid()
      ensures Some(data[..]) == old(Factorization(data[..], diagonalIndices))
    {
      if n == 0 {
        return this;
      }
      var col := 1;
      while col < n
        invariant 1 <= col <= n
        invariant FactorFrom(data[..], diagonalIndices, col) == old(Factorization(data[..], diagonalIndices))
      {
        FactorColumnInPlace(col);
        col := col + 1;
      }
      return this;
    }

    /** One pass of the outer loop of `LDLt` (lines 121-140). */
    method FactorColumnInPlace(col: nat)
      requires Valid() && 0 < col < n
      requires FactorColumn(data[..], diagonalIndices, col).Some?
      modifies data
      ensures Some(data[..]) == old(FactorColumn(data[..], diagonalIndices, col))
    {
      LayoutBounds(diagonalIndices, data.Length);
      ComputeGValues(col);
      DivideGValues(col);
      UpdateDiagonal(col);
    }

    /** Lines 121-129: the g values of column `col`. */
    method ComputeGValues(col: nat)
      requires Valid() && 0 < col < n
      modifies data
      ensures data[..] == old(GValues(data[..], diagonalIndices, col, m[col]))
    {
      LayoutBounds(diagonalIndices, data.Length);
      ghost var d0 := data[..];
      var row := m[col];
      while row < col
        invariant m[col] <= row <= col
        invariant GValues(data[..], diagonalIndices, col, row) == GValues(d0, diagonalIndices, col, m[col])
      {
        var curGIndex := Idx(diagonalIndices, row, col);
        var r := Max(m[col], m[row]);
        ghost var g0 := data[..];
        while r < row
          invariant Max(m[col], m[row]) <= r <= row
          invariant UpdateG(data[..], diagonalIndices, col, row, r) == UpdateG(g0, diagonalIndices, col, row, Max(m[col], m[row]))
        {
          ghost var before := data[..];
          var v := MinusProduct(data[curGIndex], data[Idx(diagonalIndices, r, row)], data[Idx(diagonalIndices, r, col)]);
          data[curGIndex] := v;
          assert data[..] == before[curGIndex := v];
          r := r + 1;
        }
        row := row + 1;
      }
    }

    /** Lines 132-134: the g values of column `col` become L values. */
    method DivideGValues(col: nat)
      requires Valid() && 0 < col < n
      requires ScaleG(data[..], diagonalIndices, col, m[col]).Some?
      modifies data
      ensures Some(data[..]) == old(ScaleG(data[..], diagonalIndices, col, m[col]))
    {
      LayoutBounds(diagonalIndices, data.Length);
      ghost var g := data[..];
      var row := m[col];
      while row < col
        invariant m[col] <= row <= col
        invariant ScaleG(data[..], diagonalIndices, col, row) == ScaleG(g, diagonalIndices, col, m[col])
      {
        ghost var before := data[..];
        var i := Idx(diagonalIndices, row, col);
        data[i] := data[i] / data[diagonalIndices[row]];
        assert data[..] == before[i := before[i] / before[diagonalIndices[row]]];
        row := row + 1;
      }
    }

    /** Lines 137-140: the diagonal value D of column `col`. */
    method UpdateDiagonal(col: nat)
      requires Valid() && 0 < col < n
      modifies data
      ensures data[..] == old(UpdateD(data[..], diagonalIndices, col, m[col]))
    {
      LayoutBounds(diagonalIndices, data.Length);
      ghost var s := data[..];
      var r := m[col];
      while r < col
        invariant m[col] <= r <= col
        invariant UpdateD(data[..], diagonalIndices, col, r) == UpdateD(s, diagonalIndices, col, m[col])
      {
        ghost var before := data[..];
        var i := Idx(diagonalIndices, r, col);
        var k := diagonalIndices[col];
        var v := MinusSquareTimes(data[k], data[i], data[diagonalIndices[r]]);
        data[k] := v;
        assert data[..] == before[k := v];
        r := r + 1;
      }
    }
  }

  // ---------------------------------------------------------------------------
  // fromDense
  // ---------------------------------------------------------------------------

  /**
   * `fromDense` (lines 37-64): for each column, its diagonal value first, then the
   * rows above it from col-1 upwards, stopping below the leading zeros of the
   * column. The result represents the upper triangle of `denseM`.
   */
  method FromDense(denseM: Matrix) returns (s: SparseMatrix)
    requires IsSquare(denseM)
    ensures fresh(s) && fresh(s.data) && s.Valid() && s.n == |denseM|
    ensures s.data[..] == Stacked(denseM, |denseM|) && s.diagonalIndices == Diagonals(denseM, |denseM|)
    ensures forall col :: 0 <= col < s.n ==> s.m[col] == LeadingZeros(denseM, col, 0)
    ensures s.Represents(denseM)
  {
    var data, diagonalIndices := LayOut(denseM);
    StackedLayout(denseM, |denseM|);
    var arr := new real[|data|](i requires 0 <= i < |data| => data[i]);
    assert arr[..] == data;
    s := new SparseMatrix(arr, diagonalIndices);
    s.RepresentsLayout(denseM);
  }

  /** The loop of `fromDense` (lines 47-61): the values and diagonal indices it pushes. */
  method LayOut(denseM: Matrix) returns (data: seq<real>, diagonalIndices: seq<int>)
    requires IsSquare(denseM)
    ensures data == Stacked(denseM, |denseM|) && diagonalIndices == Diagonals(denseM, |denseM|)
  {
    data := [];
    diagonalIndices := [];
    var col := 0;
    while col < |denseM|
      invariant 0 <= col <= |denseM|
      invariant data == Stacked(denseM, col) && diagonalIndices == Diagonals(denseM, col)
    {
      diagonalIndices := diagonalIndices + [|data|];
      data := PushColumn(denseM, col, data);
      assert data == Stacked(denseM, col + 1) && diagonalIndices == Diagonals(denseM, col + 1);
      col := col + 1;
    }
  }

  /** The leading-zero scan of lines 53-55. */
  method CountLeadingZeros(denseM: Matrix, col: nat) returns (trailingZerosNum: nat)
    requires IsSquare(denseM) && col < |denseM|
    ensures trailingZerosNum == LeadingZeros(denseM, col, 0)
  {
    trailingZerosNum := 0;
    while trailingZerosNum < col - 1 && denseM[trailingZerosNum][col] == 0.0
      invariant 0 <= trailingZerosNum <= ScanLimit(col)
      invariant LeadingZeros(denseM, col, trailingZerosNum) == LeadingZeros(denseM, col, 0)
    {
      trailingZerosNum := trailingZerosNum + 1;
    }
  }

  /** One round of the loop of `fromDense` (lines 49-60): push the run of column `col`. */
  method PushColumn(denseM: Matrix, col: nat, data0: seq<real>) returns (data: seq<real>)
    requires IsSquare(denseM) && col < |denseM|
    ensures data == data0 + ColumnRun(denseM, col)
  {
    data := data0 + [denseM[col][col]];
    var trailingZerosNum := CountLeadingZeros(denseM, col);
    var row := col - 1;
    while row >= trailingZerosNum
      invariant trailingZerosNum - 1 <= row <= col - 1
      invariant data == data0 + ColumnRun(denseM, col)[..col - row]
    {
      RunPrefixStep(denseM, col, col - row);
      data := data + [denseM[row][col]];
      row := row - 1;
    }
    assert ColumnRun(denseM, col)[..col - row] == ColumnRun(denseM, col);
  }

  lemma RunPrefixStep(a: Matrix, col: nat, j: nat)
    requires IsSquare(a) && col < |a| && j < col - LeadingZeros(a, col, 0) + 1
    ensures ColumnRun(a, col)[..j + 1] == ColumnRun(a, col)[..j] + [a[col - j][col]]
  {
  }

  /**
   * `toDense(fromDense(a))` reads back the upper triangle of `a` mirrored, so it
   * is `a` itself exactly when `a` is symmetric.
   */
  method DenseRoundTrip(a: Matrix) returns (b: Matrix)
    requires IsSquare(a)
    ensures IsMatrix(b, |a|, |a|)
    ensures forall r, c :: 0 <= r < |a| && 0 <= c < |a| ==> b[r][c] == (if r <= c then a[r][c] else a[c][r])
    ensures IsSymmetric(a) ==> b == a
  {
    var s := FromDense(a);
    b := s.ToDense();
    s.GetElemOfRepresented(a);
    if IsSymmetric(a) {
      forall r | 0 <= r < |a| ensures b[r] == a[r] {
        assert forall c :: 0 <= c < |a| ==> b[r][c] == a[r][c];
      }
    }
  }

  /** `fromDense` lays out [[4,2],[2,5]] as [4, 5, 2] with diagonal indices [0, 1]. */
  lemma LayoutExample()
    ensures Stacked([[4.0, 2.0], [2.0, 5.0]], 2) == [4.0, 5.0, 2.0]
    ensures Diagonals([[4.0, 2.0], [2.0, 5.0]], 2) == [0, 1]
  {
    var a := [[4.0, 2.0], [2.0, 5.0]];
    assert LeadingZeros(a, 0, 0) == 0 && LeadingZeros(a, 1, 0) == 0;
    assert ColumnRun(a, 0) == [4.0] && ColumnRun(a, 1) == [5.0, 2.0];
    assert Stacked(a, 1) == [4.0];
  }

  /** `fromDense([[4,2],[2,5]]).LDLt()` leaves the stored values [4, 4, 0.5]. */
  method LdltExample() returns (d: seq<real>)
    ensures d == [4.0, 4.0, 0.5]
  {
    var a := [[4.0, 2.0], [2.0, 5.0]];
    var s := FromDense(a);
    LayoutExample();
    FactorizationExample();
    var t := s.LDLt();
    d := s.data[..];
  }
}
