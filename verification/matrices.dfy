/**
 Dense real matrices as sequences of rows, with the handful of operations the
 estimator performs exactly: sums, differences, products and transposes.
 Floating point is not modelled; all arithmetic here is exact.
 */
module Matrices {

  type Matrix = seq<seq<real>>

  /** Number of columns, read from the first row (0 for a matrix with no rows). */
  function Cols(m: Matrix): nat {
    if |m| == 0 then 0 else |m[0]|
  }

  /** `m` has `r` rows of `c` entries each. */
  predicate IsMatrix(m: Matrix, r: nat, c: nat) {
    |m| == r && forall i | 0 <= i < r :: |m[i]| == c
  }

  /** Every row has as many entries as the first one. */
  predicate Rect(m: Matrix) {
    IsMatrix(m, |m|, Cols(m))
  }

  function Zero(r: nat, c: nat): (z: Matrix)
    ensures IsMatrix(z, r, c)
  {
    seq(r, _ => seq(c, _ => 0.0))
  }

  function Identity(n: nat): (id: Matrix)
    ensures IsMatrix(id, n, n)
  {
    seq(n, i => seq(n, j => if i == j then 1.0 else 0.0))
  }

  function Add(a: Matrix, b: Matrix): (s: Matrix)
    requires Rect(a) && IsMatrix(b, |a|, Cols(a))
    ensures IsMatrix(s, |a|, Cols(a))
  {
    seq(|a|, i requires 0 <= i < |a| => seq(Cols(a), j requires 0 <= j < Cols(a) => a[i][j] + b[i][j]))
  }

  function Sub(a: Matrix, b: Matrix): (s: Matrix)
    requires Rect(a) && IsMatrix(b, |a|, Cols(a))
    ensures IsMatrix(s, |a|, Cols(a))
  {
    seq(|a|, i requires 0 <= i < |a| => seq(Cols(a), j requires 0 <= j < Cols(a) => a[i][j] - b[i][j]))
  }

  function Scale(x: real, a: Matrix): (s: Matrix)
    requires Rect(a)
    ensures IsMatrix(s, |a|, Cols(a))
  {
    seq(|a|, i requires 0 <= i < |a| => seq(Cols(a), j requires 0 <= j < Cols(a) => x * a[i][j]))
  }

  function Neg(a: Matrix): (s: Matrix)
    requires Rect(a)
    ensures IsMatrix(s, |a|, Cols(a))
  {
    Scale(-1.0, a)
  }

  function Dot(u: seq<real>, v: seq<real>): real
    requires |u| == |v|
  {
    if |u| == 0 then 0.0 else u[0] * v[0] + Dot(u[1..], v[1..])
  }

  function Column(m: Matrix, j: nat): (c: seq<real>)
    requires forall i | 0 <= i < |m| :: j < |m[i]|
    ensures |c| == |m|
  {
    seq(|m|, i requires 0 <= i < |m| => m[i][j])
  }

  /** The product of an r-by-k matrix `a` and a k-by-c matrix `b`. */
  function MatMul(a: Matrix, b: Matrix): (p: Matrix)
    requires IsMatrix(a, |a|, |b|) && Rect(b)
    ensures IsMatrix(p, |a|, Cols(b))
  {
    seq(|a|, i requires 0 <= i < |a| => seq(Cols(b), j requires 0 <= j < Cols(b) => Dot(a[i], Column(b, j))))
  }

  function Transpose(m: Matrix): (t: Matrix)
    requires Rect(m)
    ensures IsMatrix(t, Cols(m), |m|)
  {
    seq(Cols(m), j requires 0 <= j < Cols(m) => Column(m, j))
  }

  /** `a` equals its own transpose. */
  predicate Symmetric(a: Matrix) {
    Rect(a) && Transpose(a) == a
  }

  /**
   The weighted product `x^T * o * y` exactly as the source evaluates it,
   left to right: `x.T.dot(o).dot(y)`.
   */
  function Gram(x: Matrix, o: Matrix, y: Matrix): (g: Matrix)
    requires Rect(x) && IsMatrix(o, |x|, |x|) && IsMatrix(y, |x|, Cols(y))
    ensures IsMatrix(g, Cols(x), Cols(y))
  {
    MatMul(MatMul(Transpose(x), o), y)
  }

  // ---------------------------------------------------------------------
  // Dot-product algebra

  lemma {:induction false} DotComm(u: seq<real>, v: seq<real>)
    requires |u| == |v|
    ensures Dot(u, v) == Dot(v, u)
  {
    if |u| > 0 {
      DotComm(u[1..], v[1..]);
    }
  }

  lemma {:induction false} DotZeroLeft(u: seq<real>, v: seq<real>)
    requires |u| == |v|
    requires forall i | 0 <= i < |u| :: u[i] == 0.0
    ensures Dot(u, v) == 0.0
  {
    if |u| > 0 {
      DotZeroLeft(u[1..], v[1..]);
    }
  }

  /** Dot(x*p + q, c) == x*Dot(p, c) + Dot(q, c), for `w` the vector x*p + q. */
  lemma {:induction false} DotLinear(x: real, p: seq<real>, q: seq<real>, w: seq<real>, c: seq<real>)
    requires |p| == |q| == |w| == |c|
    requires forall l | 0 <= l < |w| :: w[l] == x * p[l] + q[l]
    ensures Dot(w, c) == x * Dot(p, c) + Dot(q, c)
  {
    if |p| > 0 {
      DotLinear(x, p[1..], q[1..], w[1..], c[1..]);
    }
  }

  /** Row vector times matrix: `(u^T * b)` for a |u|-by-l matrix `b`. */
  function VecMat(u: seq<real>, b: Matrix, l: nat): (w: seq<real>)
    requires IsMatrix(b, |u|, l)
    ensures |w| == l
  {
    seq(l, j requires 0 <= j < l => Dot(u, Column(b, j)))
  }

  /** Matrix times column vector: `b * c`. */
  function MatVec(b: Matrix, c: seq<real>): (w: seq<real>)
    requires IsMatrix(b, |b|, |c|)
    ensures |w| == |b|
  {
    seq(|b|, k requires 0 <= k < |b| => Dot(b[k], c))
  }

  /** Peeling the first row off `u^T * b`. */
  lemma {:induction false} VecMatHead(u: seq<real>, b: Matrix, l: nat, j: nat)
    requires IsMatrix(b, |u|, l) && |u| > 0 && j < l
    ensures VecMat(u, b, l)[j] == u[0] * b[0][j] + VecMat(u[1..], b[1..], l)[j]
  {
    var col := Column(b, j);
    assert col[1..] == Column(b[1..], j);
  }

  lemma {:induction false} DotHead(u: seq<real>, v: seq<real>)
    requires |u| == |v| && |u| > 0
    ensures Dot(u, v) == u[0] * v[0] + Dot(u[1..], v[1..])
  {
  }

  /** Peeling the first row off `u^T * (b * c)`. */
  lemma {:induction false} MatVecHead(u: seq<real>, b: Matrix, c: seq<real>)
    requires IsMatrix(b, |u|, |c|) && |u| > 0
    ensures Dot(u, MatVec(b, c)) == u[0] * Dot(b[0], c) + Dot(u[1..], MatVec(b[1..], c))
  {
    calc {
      Dot(u, MatVec(b, c));
      { DotHead(u, MatVec(b, c)); }
      u[0] * MatVec(b, c)[0] + Dot(u[1..], MatVec(b, c)[1..]);
      { assert MatVec(b, c)[0] == Dot(b[0], c); }
      u[0] * Dot(b[0], c) + Dot(u[1..], MatVec(b, c)[1..]);
      { assert MatVec(b, c)[1..] == MatVec(b[1..], c); }
      u[0] * Dot(b[0], c) + Dot(u[1..], MatVec(b[1..], c));
    }
  }

  /** The bilinear form `u^T * b * c` does not depend on how it is bracketed. */
  lemma {:induction false} Bilinear(u: seq<real>, b: Matrix, c: seq<real>)
    requires IsMatrix(b, |u|, |c|)
    ensures Dot(VecMat(u, b, |c|), c) == Dot(u, MatVec(b, c))
  {
    if |u| == 0 {
      DotZeroLeft(VecMat(u, b, |c|), c);
    } else {
      var x, row, u', b' := u[0], b[0], u[1..], b[1..];
      var w := VecMat(u, b, |c|);
      var w' := VecMat(u', b', |c|);
      forall j | 0 <= j < |c|
        ensures w[j] == x * row[j] + w'[j]
      {
        VecMatHead(u, b, |c|, j);
      }
      DotLinear(x, row, w', w, c);
      Bilinear(u', b', c);
      MatVecHead(u, b, c);
    }
  }

  // ---------------------------------------------------------------------
  // Matrix algebra

  lemma {:induction false} MulAssoc(a: Matrix, b: Matrix, c: Matrix, r: nat, k: nat, l: nat, m: nat)
    requires IsMatrix(a, r, k) && IsMatrix(b, k, l) && IsMatrix(c, l, m) && k > 0 && l > 0
    ensures MatMul(MatMul(a, b), c) == MatMul(a, MatMul(b, c))
  {
    var lhs, rhs := MatMul(MatMul(a, b), c), MatMul(a, MatMul(b, c));
    forall i | 0 <= i < r
      ensures lhs[i] == rhs[i]
    {
      forall j | 0 <= j < m
        ensures lhs[i][j] == rhs[i][j]
      {
        assert MatMul(a, b)[i] == VecMat(a[i], b, l);
        assert Column(MatMul(b, c), j) == MatVec(b, Column(c, j));
        Bilinear(a[i], b, Column(c, j));
      }
    }
  }

  lemma {:induction false} TransposeTwice(m: Matrix)
    requires Rect(m) && (|m| == 0 || Cols(m) > 0)
    ensures Transpose(Transpose(m)) == m
  {
    var t := Transpose(Transpose(m));
    forall i | 0 <= i < |m|
      ensures t[i] == m[i]
    {
    }
  }

  lemma {:induction false} TransposeMul(a: Matrix, b: Matrix)
    requires IsMatrix(a, |a|, |b|) && Rect(b) && |a| > 0 && |b| > 0 && Cols(b) > 0
    ensures Transpose(MatMul(a, b)) == MatMul(Transpose(b), Transpose(a))
  {
    var lhs, rhs := Transpose(MatMul(a, b)), MatMul(Transpose(b), Transpose(a));
    forall i | 0 <= i < Cols(b)
      ensures lhs[i] == rhs[i]
    {
      forall j | 0 <= j < |a|
        ensures lhs[i][j] == rhs[i][j]
      {
        assert Column(Transpose(a), j) == a[j];
        DotComm(a[j], Column(b, i));
      }
    }
  }

  lemma {:induction false} TransposeAdd(a: Matrix, b: Matrix)
    requires Rect(a) && IsMatrix(b, |a|, Cols(a))
    ensures Transpose(Add(a, b)) == Add(Transpose(a), Transpose(b))
  {
    var lhs, rhs := Transpose(Add(a, b)), Add(Transpose(a), Transpose(b));
    forall j | 0 <= j < Cols(a)
      ensures lhs[j] == rhs[j]
    {
    }
  }

  /**
   For a symmetric weight `o`, the weighted product taken the other way round is
   the transpose: `(x^T o y)^T == y^T o x`.
   */
  lemma {:induction false} GramTranspose(x: Matrix, o: Matrix, y: Matrix)
    requires IsMatrix(x, |x|, Cols(x)) && IsMatrix(y, |x|, Cols(y))
    requires |x| > 0 && Cols(x) > 0 && Cols(y) > 0
    requires IsMatrix(o, |x|, |x|) && Symmetric(o)
    ensures Transpose(Gram(x, o, y)) == Gram(y, o, x)
  {
    var k, r, c := |x|, Cols(x), Cols(y);
    var xt, yt := Transpose(x), Transpose(y);
    TransposeMul(MatMul(xt, o), y);
    TransposeMul(xt, o);
    TransposeTwice(x);
    MulAssoc(yt, o, x, c, k, k, r);
  }
}
