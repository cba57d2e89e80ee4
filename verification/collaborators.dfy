/**
 The numerical and geometric collaborators the estimator calls but does not
 define: the quaternion/manifold helpers of `utils.qmath_np` and the
 pseudo-inverse and least-squares solvers of `numpy.linalg`. They are kept
 abstract, as function values handed to the estimator; only the shapes of
 what they return are assumed.
 */
module Collaborators {
  import opened Matrices

  /** A node estimate: position and unit quaternion, 7 numbers; its contents are opaque here. */
  type Pose = seq<real>

  /** Jacobians `A` (w.r.t. the source node), `B` (w.r.t. the target node) and residual `e` of one edge. */
  datatype Linearization = Linearization(A: Matrix, B: Matrix, e: Matrix)

  datatype Oracles = Oracles(
    /** `qmath_np.xadd_rel(x, z, T=False)`: the estimate reached from `x` by the relative motion `z`. */
    xaddRel: (Pose, Pose) -> Pose,
    /** `qmath_np.xadd_abs(x, dx)`: `x` corrected by a 6-DoF increment `dx`. */
    xaddAbs: (Pose, seq<real>) -> Pose,
    /** `x2pq` of both estimates and of the measurement, then `qmath_np.Aij_Bij_eij`. */
    linearize: (Pose, Pose, Pose) -> Linearization,
    /** `np.linalg.pinv`. */
    pinv: Matrix -> Matrix,
    /** `np.linalg.lstsq(a, rhs)[0]`. */
    lstsq: (Matrix, Matrix) -> Matrix)
  {
    /** The shapes the collaborators return: 6x6 Jacobians, a 6x1 residual, an n-by-m
        pseudo-inverse of an m-by-n matrix, and an n-by-k solution of an m-by-n system. */
    ghost predicate WellShaped() {
      && (forall x0, x1, z :: Shaped(linearize(x0, x1, z)))
      && (forall m {:trigger pinv(m)} :: Rect(m) ==> IsMatrix(pinv(m), Cols(m), |m|))
      && (forall a, rhs {:trigger lstsq(a, rhs)} :: Rect(a) && IsMatrix(rhs, |a|, Cols(rhs)) ==> IsMatrix(lstsq(a, rhs), Cols(a), Cols(rhs)))
    }
  }

  predicate Shaped(lin: Linearization) {
    IsMatrix(lin.A, 6, 6) && IsMatrix(lin.B, 6, 6) && IsMatrix(lin.e, 6, 1)
  }
}
