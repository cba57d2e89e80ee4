/**
 The information system of the estimator as values: the block information
 matrix `H` (an n-by-n grid of 6x6 blocks) and the information vector `b`
 (n blocks of 6x1; the source's singleton block-column axis is dropped).
 Each function here is one in-place update the source performs on them.
 */
module InformationSystem {
  import opened Matrices
  import opened Blocks
  import opened Collaborators

  /** `h` is n-by-n blocks of 6x6 and `b` is n blocks of 6x1. */
  predicate IsSystem(h: Grid, b: seq<Matrix>, n: nat) {
    IsGrid(h, n, n, 6, 6) && |b| == n && forall i | 0 <= i < n :: IsMatrix(b[i], 6, 1)
  }

  /** `H[i, j] == H[j, i]^T` for every pair of blocks. */
  predicate SymmetricGrid(h: Grid) {
    IsGrid(h, |h|, |h|, 6, 6) &&
    forall i, j | 0 <= i < |h| && 0 <= j < |h| :: h[i][j] == Transpose(h[j][i])
  }

  /** `H[i, j] = m`. */
  function Upd(h: Grid, i: nat, j: nat, m: Matrix): (r: Grid)
    requires i < |h| && j < |h[i]|
    ensures |r| == |h| && |r[i]| == |h[i]| && r[i][j] == m
    ensures forall p, q | 0 <= p < |h| && 0 <= q < |h[p]| && (p != i || q != j) :: |r[p]| == |h[p]| && r[p][q] == h[p][q]
  {
    h[i := h[i][j := m]]
  }

  function ZeroH(n: nat): (h: Grid)
    ensures IsGrid(h, n, n, 6, 6)
  {
    seq(n, _ => seq(n, _ => Zero(6, 6)))
  }

  function ZeroB(n: nat): (b: seq<Matrix>)
    ensures |b| == n && forall i | 0 <= i < n :: b[i] == Zero(6, 1)
  {
    seq(n, _ => Zero(6, 1))
  }

  /** `b` as an n-by-1 grid of 6x1 blocks, the layout the block codec expects. */
  function AsColumn(b: seq<Matrix>): (g: Grid)
    ensures |g| == |b| && forall i | 0 <= i < |b| :: g[i] == [b[i]]
  {
    var g := seq(|b|, i requires 0 <= i < |b| => [b[i]]);
    assert forall i | 0 <= i < |b| :: g[i] == [b[i]];
    g
  }

  /** The system `initialize` sets up: all blocks zero except the anchor `H[0, 0] = I`. */
  function InitialH(n: nat): (h: Grid)
    ensures IsGrid(h, n, n, 6, 6)
    ensures forall i, j | 0 <= i < n && 0 <= j < n :: h[i][j] == if i == 0 && j == 0 then Identity(6) else Zero(6, 6)
  {
    var h := seq(n, i => seq(n, j => if i == 0 && j == 0 then Identity(6) else Zero(6, 6)));
    assert forall i, j | 0 <= i < n && 0 <= j < n :: h[i][j] == if i == 0 && j == 0 then Identity(6) else Zero(6, 6);
    h
  }

  lemma {:induction false} IdentitySymmetric(n: nat)
    ensures Transpose(Identity(n)) == Identity(n)
  {
    var t := Transpose(Identity(n));
    forall i | 0 <= i < n
      ensures t[i] == Identity(n)[i]
    {
    }
  }

  lemma {:induction false} ZeroTranspose()
    ensures Transpose(Zero(6, 6)) == Zero(6, 6)
  {
    var t := Transpose(Zero(6, 6));
    forall i | 0 <= i < 6
      ensures t[i] == Zero(6, 6)[i]
    {
    }
  }

  /** The freshly initialised information matrix is symmetric. */
  lemma {:induction false} InitialSymmetric(n: nat)
    ensures SymmetricGrid(InitialH(n))
  {
    IdentitySymmetric(6);
    ZeroTranspose();
  }

  /** The all-zero information matrix is symmetric. */
  lemma {:induction false} ZeroHSymmetric(n: nat)
    ensures SymmetricGrid(ZeroH(n))
  {
    ZeroTranspose();
  }

  /** "Expand": row and column 1 of `H` cleared, every other block kept. */
  function Expanded(h: Grid): (r: Grid)
    requires IsGrid(h, |h|, |h|, 6, 6)
    ensures IsGrid(r, |h|, |h|, 6, 6)
    ensures forall i, j | 0 <= i < |h| && 0 <= j < |h| :: r[i][j] == if i == 1 || j == 1 then Zero(6, 6) else h[i][j]
  {
    var r := seq(|h|, i requires 0 <= i < |h| => seq(|h|, j requires 0 <= j < |h| => if i == 1 || j == 1 then Zero(6, 6) else h[i][j]));
    assert forall i, j | 0 <= i < |h| && 0 <= j < |h| :: r[i][j] == if i == 1 || j == 1 then Zero(6, 6) else h[i][j];
    r
  }

  /** "Expand" on `b`: entry 1 cleared. */
  function ExpandedB(b: seq<Matrix>): (r: seq<Matrix>)
    requires |b| >= 2
    ensures |r| == |b| && r[1] == Zero(6, 1) && forall i | 0 <= i < |b| && i != 1 :: r[i] == b[i]
  {
    b[1 := Zero(6, 1)]
  }

  /** Clearing row and column 1 keeps `H` symmetric. */
  lemma {:induction false} ExpandedSymmetric(h: Grid)
    requires SymmetricGrid(h)
    ensures SymmetricGrid(Expanded(h))
  {
    ZeroTranspose();
  }

  /**
   The Gauss-Newton contribution of one edge from node `z0` to node `z1` with
   Jacobians `A`, `B` and weight `o`, added block by block in the source's order:
   `H[z0,z0] += A^T o A`, `H[z0,z1] += A^T o B`, `H[z1,z0] += B^T o A`, `H[z1,z1] += B^T o B`.
   */
  function AccumulateH(h: Grid, z0: nat, z1: nat, lin: Linearization, o: Matrix): (r: Grid)
    requires IsGrid(h, |h|, |h|, 6, 6) && z0 < |h| && z1 < |h| && Shaped(lin) && IsMatrix(o, 6, 6)
    ensures IsGrid(r, |h|, |h|, 6, 6)
    ensures forall i, j | 0 <= i < |h| && 0 <= j < |h| && !((i == z0 || i == z1) && (j == z0 || j == z1)) ::
              r[i][j] == h[i][j]
  {
    var a, b := lin.A, lin.B;
    var h1 := Upd(h, z0, z0, Add(h[z0][z0], Gram(a, o, a)));
    var h2 := Upd(h1, z0, z1, Add(h1[z0][z1], Gram(a, o, b)));
    var h3 := Upd(h2, z1, z0, Add(h2[z1][z0], Gram(b, o, a)));
    Upd(h3, z1, z1, Add(h3[z1][z1], Gram(b, o, b)))
  }

  /** The edge's contribution to `b`: `b[z0] += A^T o e`, `b[z1] += B^T o e`. */
  function AccumulateB(b: seq<Matrix>, z0: nat, z1: nat, lin: Linearization, o: Matrix): (r: seq<Matrix>)
    requires (forall i | 0 <= i < |b| :: IsMatrix(b[i], 6, 1)) && z0 < |b| && z1 < |b| && Shaped(lin) && IsMatrix(o, 6, 6)
    ensures |r| == |b| && forall i | 0 <= i < |b| :: IsMatrix(r[i], 6, 1)
    ensures forall i | 0 <= i < |b| && i != z0 && i != z1 :: r[i] == b[i]
  {
    assert IsMatrix(b[z0], 6, 1) && IsMatrix(b[z1], 6, 1);
    var b1 := b[z0 := Add(b[z0], Gram(lin.A, o, lin.e))];
    b1[z1 := Add(b1[z1], Gram(lin.B, o, lin.e))]
  }

  /**
   The blocks one edge touches: for `z0 != z1` each of the four receives its
   own term; for a self-edge the single block receives all four, in order.
   */
  lemma {:induction false} AccumulateBlocks(h: Grid, z0: nat, z1: nat, lin: Linearization, o: Matrix)
    requires IsGrid(h, |h|, |h|, 6, 6) && z0 < |h| && z1 < |h| && Shaped(lin) && IsMatrix(o, 6, 6)
    ensures var r, a, b := AccumulateH(h, z0, z1, lin, o), lin.A, lin.B;
      z0 != z1 ==>
        && r[z0][z0] == Add(h[z0][z0], Gram(a, o, a)) && r[z0][z1] == Add(h[z0][z1], Gram(a, o, b))
        && r[z1][z0] == Add(h[z1][z0], Gram(b, o, a)) && r[z1][z1] == Add(h[z1][z1], Gram(b, o, b))
    ensures var r, a, b := AccumulateH(h, z0, z1, lin, o), lin.A, lin.B;
      z0 == z1 ==> r[z0][z0] == Add(Add(Add(Add(h[z0][z0], Gram(a, o, a)), Gram(a, o, b)), Gram(b, o, a)), Gram(b, o, b))
  {
  }

  /** The entries of `b` one edge touches: `A^T o e` and `B^T o e` on distinct nodes, both on a self-edge. */
  lemma {:induction false} AccumulateEntries(b: seq<Matrix>, z0: nat, z1: nat, lin: Linearization, o: Matrix)
    requires (forall i | 0 <= i < |b| :: IsMatrix(b[i], 6, 1)) && z0 < |b| && z1 < |b| && Shaped(lin) && IsMatrix(o, 6, 6)
    ensures var r := AccumulateB(b, z0, z1, lin, o);
      z0 != z1 ==> r[z0] == Add(b[z0], Gram(lin.A, o, lin.e)) && r[z1] == Add(b[z1], Gram(lin.B, o, lin.e))
    ensures z0 == z1 ==> AccumulateB(b, z0, z1, lin, o)[z0] == Add(Add(b[z0], Gram(lin.A, o, lin.e)), Gram(lin.B, o, lin.e))
  {
  }

  /** Addition of 6x6 blocks commutes and associates (used for a self-edge). */
  lemma {:induction false} AddSwap(x: Matrix, p: Matrix, q: Matrix)
    requires IsMatrix(x, 6, 6) && IsMatrix(p, 6, 6) && IsMatrix(q, 6, 6)
    ensures Add(Add(x, p), q) == Add(Add(x, q), p)
  {
    var l, r := Add(Add(x, p), q), Add(Add(x, q), p);
    forall i | 0 <= i < 6
      ensures l[i] == r[i]
    {
    }
  }

  /**
   A grid that agrees with a symmetric grid outside the blocks `(z0|z1, z0|z1)`,
   and whose four blocks there are transposes of each other, is symmetric.
   */
  lemma {:induction false} TouchedSymmetric(h: Grid, r: Grid, z0: nat, z1: nat)
    requires SymmetricGrid(h) && IsGrid(r, |h|, |h|, 6, 6) && z0 < |h| && z1 < |h|
    requires forall i, j | 0 <= i < |h| && 0 <= j < |h| && !((i == z0 || i == z1) && (j == z0 || j == z1)) :: r[i][j] == h[i][j]
    requires r[z0][z0] == Transpose(r[z0][z0]) && r[z1][z1] == Transpose(r[z1][z1])
    requires r[z0][z1] == Transpose(r[z1][z0]) && r[z1][z0] == Transpose(r[z0][z1])
    ensures SymmetricGrid(r)
  {
    forall i, j | 0 <= i < |h| && 0 <= j < |h|
      ensures r[i][j] == Transpose(r[j][i])
    {
      if !((i == z0 || i == z1) && (j == z0 || j == z1)) {
        assert r[i][j] == h[i][j] && r[j][i] == h[j][i];
      }
    }
  }

  /**
   A self-edge adds its four terms to one diagonal block; with `paa` and `pbb`
   symmetric and `pba` the transpose of `pab`, a symmetric block stays symmetric.
   */
  lemma {:induction false} SelfEdgeSymmetric(x: Matrix, paa: Matrix, pab: Matrix, pba: Matrix, pbb: Matrix)
    requires IsMatrix(x, 6, 6) && IsMatrix(paa, 6, 6) && IsMatrix(pab, 6, 6) && IsMatrix(pba, 6, 6) && IsMatrix(pbb, 6, 6)
    requires Transpose(x) == x && Transpose(paa) == paa && Transpose(pbb) == pbb
    requires Transpose(pab) == pba && Transpose(pba) == pab
    ensures var r := Add(Add(Add(Add(x, paa), pab), pba), pbb); Transpose(r) == r
  {
    TransposeAdd(Add(Add(Add(x, paa), pab), pba), pbb);
    TransposeAdd(Add(Add(x, paa), pab), pba);
    TransposeAdd(Add(x, paa), pab);
    TransposeAdd(x, paa);
    AddSwap(Add(x, paa), pba, pab);
  }

  /**
   With a symmetric weight `o`, one edge's contribution to `H` keeps `H`
   symmetric: the increment to `H[z1, z0]` is the transpose of the increment to
   `H[z0, z1]`, and the diagonal increments are symmetric themselves.
   */
  lemma {:induction false} AccumulateSymmetric(h: Grid, z0: nat, z1: nat, lin: Linearization, o: Matrix)
    requires SymmetricGrid(h) && z0 < |h| && z1 < |h| && Shaped(lin) && IsMatrix(o, 6, 6) && Symmetric(o)
    ensures SymmetricGrid(AccumulateH(h, z0, z1, lin, o))
  {
    var a, b := lin.A, lin.B;
    var r := AccumulateH(h, z0, z1, lin, o);
    var paa, pab, pba, pbb := Gram(a, o, a), Gram(a, o, b), Gram(b, o, a), Gram(b, o, b);
    GramTranspose(a, o, a);
    GramTranspose(a, o, b);
    GramTranspose(b, o, a);
    GramTranspose(b, o, b);
    AccumulateBlocks(h, z0, z1, lin, o);
    if z0 == z1 {
      SelfEdgeSymmetric(h[z0][z0], paa, pab, pba, pbb);
    } else {
      TransposeAdd(h[z0][z0], paa);
      TransposeAdd(h[z0][z1], pab);
      TransposeAdd(h[z1][z0], pba);
      TransposeAdd(h[z1][z1], pbb);
    }
    TouchedSymmetric(h, r, z0, z1);
  }

  /** The anchor `run` adds before each solve: `H[0, 0] += I`. */
  function Anchored(h: Grid): (r: Grid)
    requires IsGrid(h, |h|, |h|, 6, 6) && |h| >= 1
    ensures IsGrid(r, |h|, |h|, 6, 6)
    ensures r[0][0] == Add(h[0][0], Identity(6))
    ensures forall i, j | 0 <= i < |h| && 0 <= j < |h| && (i, j) != (0, 0) :: r[i][j] == h[i][j]
  {
    Upd(h, 0, 0, Add(h[0][0], Identity(6)))
  }

  /** Adding the identity anchor keeps `H` symmetric. */
  lemma {:induction false} AnchoredSymmetric(h: Grid)
    requires SymmetricGrid(h) && |h| >= 1
    ensures SymmetricGrid(Anchored(h))
  {
    TransposeAdd(h[0][0], Identity(6));
    IdentitySymmetric(6);
  }

  /** Slot of the full system that reduced index `r` is written back to: 0 stays 0, `r >= 1` goes to `r + 1`. */
  function Slot(r: nat): (s: nat)
    ensures s != 1
  {
    if r == 0 then 0 else r + 1
  }

  /** The reduced index a slot other than 1 reads from. */
  function Reduced(i: nat): (r: nat)
    requires i != 1
    ensures Slot(r) == i
  {
    if i == 0 then 0 else i - 1
  }

  /**
   Write-back of the reduced information matrix `red` ((n-1)-by-(n-1) blocks,
   ordered node 1, landmarks): every slot other than 1 receives its reduced
   block; row and column 1 keep what they held.
   */
  function WriteBackH(h: Grid, red: Grid): (r: Grid)
    requires |h| >= 2 && IsGrid(h, |h|, |h|, 6, 6) && IsGrid(red, |h| - 1, |h| - 1, 6, 6)
    ensures IsGrid(r, |h|, |h|, 6, 6)
    ensures forall i, j | 0 <= i < |h| && 0 <= j < |h| && (i == 1 || j == 1) :: r[i][j] == h[i][j]
    ensures forall p, q | 0 <= p < |red| && 0 <= q < |red| :: r[Slot(p)][Slot(q)] == red[p][q]
  {
    seq(|h|, i requires 0 <= i < |h| => seq(|h|, j requires 0 <= j < |h| =>
      if i == 1 || j == 1 then h[i][j] else red[Reduced(i)][Reduced(j)]))
  }

  /** Writing back a symmetric reduced matrix keeps `H` symmetric: row and column 1 are kept, and every other block moves with its transpose. */
  lemma {:induction false} WriteBackSymmetric(h: Grid, red: Grid)
    requires |h| >= 2 && SymmetricGrid(h) && IsGrid(red, |h| - 1, |h| - 1, 6, 6) && SymmetricGrid(red)
    ensures SymmetricGrid(WriteBackH(h, red))
  {
    var r := WriteBackH(h, red);
    forall i, j | 0 <= i < |h| && 0 <= j < |h|
      ensures r[i][j] == Transpose(r[j][i])
    {
      if i != 1 && j != 1 {
        var p, q := Reduced(i), Reduced(j);
        assert r[Slot(p)][Slot(q)] == red[p][q];
        assert r[Slot(q)][Slot(p)] == red[q][p];
      }
    }
  }

  /** Write-back of the reduced information vector (an (n-1)-by-1 grid of 6x1 blocks); `b[1]` is kept. */
  function WriteBackB(b: seq<Matrix>, red: Grid): (r: seq<Matrix>)
    requires |b| >= 2 && (forall i | 0 <= i < |b| :: IsMatrix(b[i], 6, 1)) && IsGrid(red, |b| - 1, 1, 6, 1)
    ensures |r| == |b| && (forall i | 0 <= i < |b| :: IsMatrix(r[i], 6, 1))
    ensures r[1] == b[1]
    ensures forall p | 0 <= p < |red| :: r[Slot(p)] == red[p][0]
  {
    seq(|b|, i requires 0 <= i < |b| => if i == 1 then b[1] else red[Reduced(i)][0])
  }
}
