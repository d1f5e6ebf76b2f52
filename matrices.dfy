/**
 * Dense matrices as values: the handful of numeric-library operations the
 * engines lean on (identity, zeros, transpose, product, row arithmetic), stated
 * exactly over `real`, with the linear-algebra facts the engine proofs need.
 *
 * A JavaScript `clone` of a matrix is the identity on these values: a matrix
 * placed in a log can never be changed afterwards by the working copy.
 */
module Matrices {

  type Matrix = seq<seq<real>>

  /** `a` has `h` rows, each of them `w` entries long. */
  predicate IsMatrix(a: Matrix, h: nat, w: nat) {
    |a| == h && forall i :: 0 <= i < h ==> |a[i]| == w
  }

  predicate IsSquare(a: Matrix) {
    IsMatrix(a, |a|, |a|)
  }

  predicate IsSymmetric(a: Matrix)
    requires IsSquare(a)
  {
    forall i, j :: 0 <= i < |a| && 0 <= j < |a| ==> a[i][j] == a[j][i]
  }

  /** The number of columns of a rectangular matrix (0 for a matrix without rows). */
  function Width(a: Matrix): nat {
    if |a| == 0 then 0 else |a[0]|
  }

  /** `math.eye(n)`. */
  function Eye(n: nat): Matrix {
    seq(n, i => seq(n, j => if i == j then 1.0 else 0.0))
  }

  /** `math.zeros(h, w)`. */
  function Zeros(h: nat, w: nat): Matrix {
    seq(h, i => seq(w, j => 0.0))
  }

  /** Column `j` of `a`, as a vector. */
  function Column(a: Matrix, j: nat): seq<real>
    requires forall i :: 0 <= i < |a| ==> j < |a[i]|
  {
    seq(|a|, i requires 0 <= i < |a| => a[i][j])
  }

  /** `math.transpose`; the transpose of a matrix without rows is again empty. */
  function Transpose(a: Matrix): (t: Matrix)
    requires IsMatrix(a, |a|, Width(a))
    ensures IsMatrix(t, Width(a), |a|)
  {
    if |a| == 0 then [] else seq(|a[0]|, j requires 0 <= j < |a[0]| => Column(a, j))
  }

  /** The inner product of two vectors of equal length. */
  function Dot(u: seq<real>, v: seq<real>): real
    requires |u| == |v|
    decreases |u|
  {
    if |u| == 0 then 0.0 else u[0] * v[0] + Dot(u[1..], v[1..])
  }

  /** The row vector `x` times the matrix `b` (`|x|` rows of width `w`). */
  function VecMat(x: seq<real>, b: Matrix, w: nat): seq<real>
    requires IsMatrix(b, |x|, w)
  {
    seq(w, j requires 0 <= j < w => Dot(x, Column(b, j)))
  }

  /** `math.multiply(a, b)` for an `h`-by-`k` matrix `a` and a `k`-by-`w` matrix `b`. */
  function MatMul(a: Matrix, b: Matrix, w: nat): (c: Matrix)
    requires IsMatrix(a, |a|, |b|) && IsMatrix(b, |b|, w)
    ensures IsMatrix(c, |a|, w)
  {
    seq(|a|, i requires 0 <= i < |a| => VecMat(a[i], b, w))
  }

  /** The matrix-vector product `a·v`. */
  function MatVec(a: Matrix, v: seq<real>): seq<real>
    requires IsMatrix(a, |a|, |v|)
  {
    seq(|a|, i requires 0 <= i < |a| => Dot(a[i], v))
  }

  /** `u + s·v`, entry by entry (`math.add(u, math.multiply(s, v))`). */
  function AddScaled(u: seq<real>, s: real, v: seq<real>): seq<real>
    requires |u| == |v|
  {
    seq(|u|, j requires 0 <= j < |u| => u[j] + s * v[j])
  }

  /** `u − s·v`, entry by entry (the in-place `u[j] -= s * v[j]`). */
  function SubScaled(u: seq<real>, s: real, v: seq<real>): seq<real>
    requires |u| == |v|
  {
    seq(|u|, j requires 0 <= j < |u| => u[j] - s * v[j])
  }

  /** `u / s`, entry by entry. */
  function DivideBy(u: seq<real>, s: real): seq<real>
    requires s != 0.0
  {
    seq(|u|, j requires 0 <= j < |u| => u[j] / s)
  }

  /** The vector of zeros. */
  predicate IsZero(v: seq<real>) {
    forall j :: 0 <= j < |v| ==> v[j] == 0.0
  }

  predicate IsLowerTriangular(a: Matrix)
    requires IsSquare(a)
  {
    forall i, j :: 0 <= i < j < |a| ==> a[i][j] == 0.0
  }

  predicate IsUnitLowerTriangular(a: Matrix)
    requires IsSquare(a)
  {
    IsLowerTriangular(a) && forall i :: 0 <= i < |a| ==> a[i][i] == 1.0
  }

  /** `a` is zero below the diagonal in every column `j < k`. */
  predicate IsUpperTriangularUpTo(a: Matrix, k: int)
    requires IsSquare(a)
  {
    forall i, j :: 0 <= j < i < |a| && j < k ==> a[i][j] == 0.0
  }

  predicate IsDiagonal(a: Matrix)
    requires IsSquare(a)
  {
    forall i, j :: 0 <= i < |a| && 0 <= j < |a| && i != j ==> a[i][j] == 0.0
  }

  /** `p` lists each of `0 .. |p|-1` exactly once. */
  predicate IsPermutation(p: seq<nat>) {
    (forall i :: 0 <= i < |p| ==> p[i] < |p|) &&
    (forall i, j :: 0 <= i < j < |p| ==> p[i] != p[j])
  }

  /** The matrix whose row `i` is row `p[i]` of the identity. */
  function PermutationMatrix(p: seq<nat>): Matrix {
    seq(|p|, i requires 0 <= i < |p| => seq(|p|, j => if p[i] == j then 1.0 else 0.0))
  }

  /** A square 0/1 matrix with exactly one 1 in every row and every column. */
  predicate IsPermutationMatrix(a: Matrix)
    requires IsSquare(a)
  {
    (forall i, j :: 0 <= i < |a| && 0 <= j < |a| ==> a[i][j] == 0.0 || a[i][j] == 1.0) &&
    (forall i :: 0 <= i < |a| ==> 1.0 in a[i]) &&
    (forall i, j, k :: 0 <= i < |a| && 0 <= j < k < |a| ==> !(a[i][j] == 1.0 && a[i][k] == 1.0)) &&
    (forall i, k, j :: 0 <= i < k < |a| && 0 <= j < |a| ==> !(a[i][j] == 1.0 && a[k][j] == 1.0))
  }

  /** `s` with the entries at `i` and `j` exchanged. */
  function Swap<T>(s: seq<T>, i: nat, j: nat): (r: seq<T>)
    requires i < |s| && j < |s|
    ensures |r| == |s| && r[i] == s[j] && r[j] == s[i]
    ensures forall k :: 0 <= k < |s| && k != i && k != j ==> r[k] == s[k]
  {
    s[i := s[j]][j := s[i]]
  }

  // ---------------------------------------------------------------------------
  // Facts about the operations above
  // ---------------------------------------------------------------------------

  /** Exchanging the same two entries twice gives back the original sequence. */
  lemma SwapTwice<T>(s: seq<T>, i: nat, j: nat)
    requires i < |s| && j < |s|
    ensures Swap(Swap(s, i, j), i, j) == s
  {
  }

  /** Exchanging two entries of a permutation gives a permutation. */
  lemma SwapPermutation(p: seq<nat>, i: nat, j: nat)
    requires IsPermutation(p) && i < |p| && j < |p|
    ensures IsPermutation(Swap(p, i, j))
  {
  }

  /** The ordering `0, 1, .., n-1`. */
  function Identity(n: nat): seq<nat> {
    seq(n, i requires 0 <= i < n => i as nat)
  }

  /** The identity ordering is a permutation, and its matrix is the identity matrix. */
  lemma IdentityPermutation(n: nat)
    ensures IsPermutation(Identity(n))
    ensures PermutationMatrix(Identity(n)) == Eye(n)
  {
  }

  /** Row-swapping a permutation matrix is the same as swapping its permutation. */
  lemma SwapPermutationMatrix(p: seq<nat>, i: nat, j: nat)
    requires i < |p| && j < |p|
    ensures Swap(PermutationMatrix(p), i, j) == PermutationMatrix(Swap(p, i, j))
  {
  }

  /** The matrix of a permutation is a permutation matrix. */
  lemma PermutationMatrixIsPermutationMatrix(p: seq<nat>)
    requires IsPermutation(p)
    ensures IsSquare(PermutationMatrix(p))
    ensures IsPermutationMatrix(PermutationMatrix(p))
  {
    var a := PermutationMatrix(p);
    assert IsSquare(a);
    forall i | 0 <= i < |a|
      ensures 1.0 in a[i]
    {
      assert a[i][p[i]] == 1.0;
    }
  }

  /** An inner product in which every term but the `t`-th vanishes. */
  lemma {:induction false} DotSingle(u: seq<real>, v: seq<real>, t: int)
    requires |u| == |v|
    requires forall k :: 0 <= k < |u| && k != t ==> u[k] == 0.0 || v[k] == 0.0
    ensures Dot(u, v) == if 0 <= t < |u| then u[t] * v[t] else 0.0
    decreases |u|
  {
    if |u| > 0 {
      DotSingle(u[1..], v[1..], t - 1);
      assert Dot(u, v) == u[0] * v[0] + Dot(u[1..], v[1..]);
      if t != 0 {
        assert u[0] * v[0] == 0.0;
      }
    }
  }

  /** The inner product is linear in its first argument. */
  lemma {:induction false} DotSubScaled(u: seq<real>, s: real, v: seq<real>, c: seq<real>)
    requires |u| == |v| == |c|
    ensures Dot(SubScaled(u, s, v), c) == Dot(u, c) - s * Dot(v, c)
    decreases |u|
  {
    if |u| > 0 {
      var w := SubScaled(u, s, v);
      assert w[1..] == SubScaled(u[1..], s, v[1..]) by {
        forall k | 0 <= k < |u| - 1 ensures w[1..][k] == SubScaled(u[1..], s, v[1..])[k] {
          assert w[1..][k] == w[k + 1];
        }
      }
      DotSubScaled(u[1..], s, v[1..], c[1..]);
    }
  }

  /** Dividing a vector divides its inner products. */
  lemma {:induction false} DotDivideBy(u: seq<real>, s: real, c: seq<real>)
    requires |u| == |c| && s != 0.0
    ensures Dot(DivideBy(u, s), c) == Dot(u, c) / s
    decreases |u|
  {
    if |u| > 0 {
      assert DivideBy(u, s)[1..] == DivideBy(u[1..], s);
      DotDivideBy(u[1..], s, c[1..]);
      assert (u[0] / s) * c[0] == (u[0] * c[0]) / s;
    }
  }

  /** The inner product is symmetric. */
  lemma {:induction false} DotCommutes(u: seq<real>, v: seq<real>)
    requires |u| == |v|
    ensures Dot(u, v) == Dot(v, u)
    decreases |u|
  {
    if |u| > 0 {
      DotCommutes(u[1..], v[1..]);
    }
  }

  /** A row of `a·b` is the row of `a` times `b`, and linear combinations of rows carry over. */
  lemma VecMatSubScaled(x: seq<real>, s: real, y: seq<real>, b: Matrix, w: nat)
    requires |x| == |y| && IsMatrix(b, |x|, w)
    ensures VecMat(SubScaled(x, s, y), b, w) == SubScaled(VecMat(x, b, w), s, VecMat(y, b, w))
  {
    forall j | 0 <= j < w
      ensures VecMat(SubScaled(x, s, y), b, w)[j] == SubScaled(VecMat(x, b, w), s, VecMat(y, b, w))[j]
    {
      DotSubScaled(x, s, y, Column(b, j));
    }
  }

  lemma VecMatDivideBy(x: seq<real>, s: real, b: Matrix, w: nat)
    requires IsMatrix(b, |x|, w) && s != 0.0
    ensures VecMat(DivideBy(x, s), b, w) == DivideBy(VecMat(x, b, w), s)
  {
    forall j | 0 <= j < w
      ensures VecMat(DivideBy(x, s), b, w)[j] == DivideBy(VecMat(x, b, w), s)[j]
    {
      DotDivideBy(x, s, Column(b, j));
    }
  }

  /** Row `i` of the identity times `b` is row `i` of `b`. */
  lemma VecMatUnit(n: nat, i: nat, b: Matrix, w: nat)
    requires i < n && IsMatrix(b, n, w)
    ensures VecMat(Eye(n)[i], b, w) == b[i]
  {
    forall j | 0 <= j < w
      ensures VecMat(Eye(n)[i], b, w)[j] == b[i][j]
    {
      DotSingle(Eye(n)[i], Column(b, j), i);
    }
  }

  /** The identity is a left unit of the product. */
  lemma EyeTimes(b: Matrix, w: nat)
    requires IsMatrix(b, |b|, w)
    ensures MatMul(Eye(|b|), b, w) == b
  {
    forall i | 0 <= i < |b|
      ensures MatMul(Eye(|b|), b, w)[i] == b[i]
    {
      VecMatUnit(|b|, i, b, w);
    }
  }

  /** The product of two unit lower-triangular matrices is unit lower-triangular. */
  lemma UnitLowerProduct(a: Matrix, b: Matrix)
    requires IsSquare(a) && IsSquare(b) && |a| == |b|
    requires IsUnitLowerTriangular(a) && IsUnitLowerTriangular(b)
    ensures IsSquare(MatMul(a, b, |b|))
    ensures IsUnitLowerTriangular(MatMul(a, b, |b|))
  {
    var n := |a|;
    var c := MatMul(a, b, n);
    forall i, j | 0 <= i < n && 0 <= j < n && i <= j
      ensures c[i][j] == if i == j then 1.0 else 0.0
    {
      DotSingle(a[i], Column(b, j), i);
    }
  }
}
