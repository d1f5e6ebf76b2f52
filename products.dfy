/**
 * The algebra of the matrix product that the factorisation proofs need:
 * linearity of the inner product, associativity of `math.multiply`, and the
 * product with a matrix that has at most two nonzero entries in a row.
 */
module Products {
  import opened Matrices

  /** The inner product is linear in its first argument (the `+` form). */
  lemma {:induction false} DotAddScaled(u: seq<real>, s: real, v: seq<real>, c: seq<real>)
    requires |u| == |v| == |c|
    ensures Dot(AddScaled(u, s, v), c) == Dot(u, c) + s * Dot(v, c)
    decreases |u|
  {
    if |u| > 0 {
      var w := AddScaled(u, s, v);
      assert w[1..] == AddScaled(u[1..], s, v[1..]) by {
        forall k | 0 <= k < |u| - 1 ensures w[1..][k] == AddScaled(u[1..], s, v[1..])[k] {
          assert w[1..][k] == w[k + 1];
        }
      }
      DotAddScaled(u[1..], s, v[1..], c[1..]);
    }
  }

  /** The zero vector is orthogonal to everything. */
  lemma {:induction false} DotZeroLeft(u: seq<real>, c: seq<real>)
    requires |u| == |c| && IsZero(u)
    ensures Dot(u, c) == 0.0
    decreases |u|
  {
    if |u| > 0 {
      DotZeroLeft(u[1..], c[1..]);
    }
  }

  /** Column `j` of the rows after the first is the tail of column `j`. */
  lemma ColumnTail(b: Matrix, j: nat)
    requires |b| > 0 && forall i :: 0 <= i < |b| ==> j < |b[i]|
    ensures Column(b, j)[1..] == Column(b[1..], j)
  {
  }

  /** A row vector times a matrix, peeling off the first row of the matrix. */
  lemma VecMatCons(x: seq<real>, b: Matrix, w: nat)
    requires |x| > 0 && IsMatrix(b, |x|, w)
    ensures VecMat(x, b, w) == AddScaled(VecMat(x[1..], b[1..], w), x[0], b[0])
  {
    forall j | 0 <= j < w
      ensures VecMat(x, b, w)[j] == AddScaled(VecMat(x[1..], b[1..], w), x[0], b[0])[j]
    {
      ColumnTail(b, j);
    }
  }

  /** Moving a matrix across an inner product: `(x·B)·y == x·(B·y)`. */
  lemma {:induction false} DotVecMat(x: seq<real>, b: Matrix, w: nat, y: seq<real>)
    requires IsMatrix(b, |x|, w) && |y| == w
    ensures Dot(VecMat(x, b, w), y) == Dot(x, MatVec(b, y))
    decreases |x|
  {
    if |x| == 0 {
      DotZeroLeft(VecMat(x, b, w), y);
    } else {
      VecMatCons(x, b, w);
      DotAddScaled(VecMat(x[1..], b[1..], w), x[0], b[0], y);
      DotVecMat(x[1..], b[1..], w, y);
      assert MatVec(b, y)[1..] == MatVec(b[1..], y);
    }
  }

  /** A column of a product is the left factor times that column. */
  lemma ColumnOfProduct(b: Matrix, c: Matrix, w: nat, j: nat)
    requires IsMatrix(b, |b|, |c|) && IsMatrix(c, |c|, w) && j < w
    ensures Column(MatMul(b, c, w), j) == MatVec(b, Column(c, j))
  {
  }

  /** `math.multiply` is associative. */
  lemma MatMulAssociative(a: Matrix, b: Matrix, c: Matrix, w: nat)
    requires IsMatrix(a, |a|, |b|) && IsMatrix(b, |b|, |c|) && IsMatrix(c, |c|, w)
    ensures MatMul(MatMul(a, b, |c|), c, w) == MatMul(a, MatMul(b, c, w), w)
  {
    var ab, bc := MatMul(a, b, |c|), MatMul(b, c, w);
    forall i | 0 <= i < |a|
      ensures VecMat(ab[i], c, w) == VecMat(a[i], bc, w)
    {
      forall j | 0 <= j < w
        ensures VecMat(ab[i], c, w)[j] == VecMat(a[i], bc, w)[j]
      {
        ColumnOfProduct(b, c, w, j);
        DotVecMat(a[i], b, |c|, Column(c, j));
      }
    }
  }

  /** An inner product in which every term but the `s`-th and `t`-th vanishes. */
  lemma {:induction false} DotPair(u: seq<real>, v: seq<real>, s: nat, t: nat)
    requires |u| == |v| && s < t < |u|
    requires forall k :: 0 <= k < |u| && k != s && k != t ==> u[k] == 0.0
    ensures Dot(u, v) == u[s] * v[s] + u[t] * v[t]
    decreases |u|
  {
    if s == 0 {
      DotSingle(u[1..], v[1..], t - 1);
    } else {
      DotPair(u[1..], v[1..], s - 1, t - 1);
      assert u[0] * v[0] == 0.0;
    }
  }

  /** A row with two nonzero entries picks out a combination of two rows. */
  lemma VecMatPair(x: seq<real>, b: Matrix, w: nat, s: nat, t: nat)
    requires IsMatrix(b, |x|, w) && s < t < |x|
    requires forall k :: 0 <= k < |x| && k != s && k != t ==> x[k] == 0.0
    ensures forall j :: 0 <= j < w ==> VecMat(x, b, w)[j] == x[s] * b[s][j] + x[t] * b[t][j]
  {
    forall j | 0 <= j < w
      ensures VecMat(x, b, w)[j] == x[s] * b[s][j] + x[t] * b[t][j]
    {
      DotPair(x, Column(b, j), s, t);
    }
  }
}
