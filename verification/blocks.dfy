/**
 The block-matrix codec: a 4-D array of `ni` by `nj` blocks, each `nk` by `nl`,
 and the dense `(ni*nk)` by `(nj*nl)` matrix that interleaves them.
 Block element `[i][j][k][l]` is dense cell `[i*nk + k][j*nl + l]`.
 */
module Blocks {
  import opened Matrices

  /** A 4-D block array: `G[i][j]` is the block in block row `i`, block column `j`. */
  type Grid = seq<seq<Matrix>>

  /** Number of block columns, read from the first block row. */
  function Width(g: Grid): nat {
    if |g| == 0 then 0 else |g[0]|
  }

  /** `g` has shape `(ni, nj, nk, nl)`. */
  predicate IsGrid(g: Grid, ni: nat, nj: nat, nk: nat, nl: nat) {
    |g| == ni &&
    forall i | 0 <= i < ni :: |g[i]| == nj && forall j | 0 <= j < nj :: IsMatrix(g[i][j], nk, nl)
  }

  /** A positive multiple of `n` is at least `n`. */
  lemma {:induction false} MultipleAtLeast(d: int, n: nat)
    requires d >= 1
    ensures d * n >= n
  {
    assert d * n == (d - 1) * n + n;
  }

  /** `q * n + r` splits back into quotient `q` and remainder `r`. */
  lemma {:induction false} DivModOf(q: nat, r: nat, n: nat)
    requires r < n
    ensures (q * n + r) / n == q && (q * n + r) % n == r
  {
    var x := q * n + r;
    var q', r' := x / n, x % n;
    assert x == q' * n + r';
    assert (q' - q) * n == r - r';
    assert q' <= q by {
      if q' > q {
        MultipleAtLeast(q' - q, n);
      }
    }
    assert q' >= q by {
      if q' < q {
        MultipleAtLeast(q - q', n);
      }
    }
  }

  /** A dense index below `count * n` falls in one of `count` bands of height `n`. */
  lemma {:induction false} DivBelow(x: nat, count: nat, n: nat)
    requires x < count * n
    ensures n > 0 && x / n < count && x % n < n && x == x / n * n + x % n
  {
    assert n != 0;
    var q := x / n;
    assert x == q * n + x % n;
    assert q * n <= x < count * n;
    assert q < count;
  }

  /** `q * n + r` stays below `count * n`. */
  lemma {:induction false} BandBound(q: nat, r: nat, count: nat, n: nat)
    requires q < count && r < n
    ensures q * n + r < count * n
  {
    assert count * n == (count - 1) * n + n;
    assert q * n <= (count - 1) * n;
  }

  /**
   Block array to dense matrix: swap the second and third axes and reshape to
   `(ni*nk, nj*nl)`. The block shape is passed explicitly because a sequence of
   no blocks does not record it.
   */
  function Block(g: Grid, nk: nat, nl: nat): (d: Matrix)
    requires IsGrid(g, |g|, Width(g), nk, nl)
    ensures IsMatrix(d, |g| * nk, Width(g) * nl)
  {
    var ni, nj := |g|, Width(g);
    seq(ni * nk, r requires 0 <= r < ni * nk =>
      DivBelow(r, ni, nk);
      seq(nj * nl, c requires 0 <= c < nj * nl =>
        DivBelow(c, nj, nl);
        g[r / nk][c / nl][r % nk][c % nl]))
  }

  /** Block element `[i][j][k][l]` lands in dense cell `[i*nk + k][j*nl + l]`. */
  lemma {:induction false} BlockAt(g: Grid, nk: nat, nl: nat, i: nat, j: nat, k: nat, l: nat)
    requires IsGrid(g, |g|, Width(g), nk, nl)
    requires i < |g| && j < Width(g) && k < nk && l < nl
    ensures i * nk + k < |g| * nk && j * nl + l < Width(g) * nl
    ensures Block(g, nk, nl)[i * nk + k][j * nl + l] == g[i][j][k][l]
  {
    BandBound(i, k, |g|, nk);
    BandBound(j, l, Width(g), nl);
    DivModOf(i, k, nk);
    DivModOf(j, l, nl);
  }

  /**
   Dense matrix to block array with blocks of shape `(nk, nl)`. The source
   divides the dense shape by the block shape; here the division must be exact.
   */
  function Unblock(d: Matrix, nk: nat, nl: nat): (g: Grid)
    requires nk > 0 && nl > 0 && Rect(d) && |d| % nk == 0 && Cols(d) % nl == 0
    ensures IsGrid(g, |d| / nk, Cols(d) / nl, nk, nl)
  {
    var ni, nj := |d| / nk, Cols(d) / nl;
    seq(ni, i requires 0 <= i < ni =>
      seq(nj, j requires 0 <= j < nj =>
        seq(nk, k requires 0 <= k < nk =>
          BandBound(i, k, ni, nk);
          seq(nl, l requires 0 <= l < nl =>
            BandBound(j, l, nj, nl);
            d[i * nk + k][j * nl + l]))))
  }

  /** Dense cell `[i*nk + k][j*nl + l]` becomes block element `[i][j][k][l]`. */
  lemma {:induction false} UnblockAt(d: Matrix, nk: nat, nl: nat, i: nat, j: nat, k: nat, l: nat)
    requires nk > 0 && nl > 0 && Rect(d) && |d| % nk == 0 && Cols(d) % nl == 0
    requires i < |d| / nk && j < Cols(d) / nl && k < nk && l < nl
    ensures i * nk + k < |d| && j * nl + l < Cols(d)
    ensures Unblock(d, nk, nl)[i][j][k][l] == d[i * nk + k][j * nl + l]
  {
    BandBound(i, k, |d| / nk, nk);
    BandBound(j, l, Cols(d) / nl, nl);
  }

  /** The dense shape of a block array divides evenly by its block shape. */
  lemma {:induction false} BlockShape(g: Grid, nk: nat, nl: nat)
    requires nk > 0 && nl > 0 && IsGrid(g, |g|, Width(g), nk, nl)
    ensures |Block(g, nk, nl)| % nk == 0 && |Block(g, nk, nl)| / nk == |g|
    ensures Cols(Block(g, nk, nl)) % nl == 0
    ensures |g| > 0 ==> Cols(Block(g, nk, nl)) / nl == Width(g)
  {
    DivModOf(|g|, 0, nk);
    DivModOf(Width(g), 0, nl);
  }

  lemma {:induction false} UnblockBlockAt(g: Grid, nk: nat, nl: nat, i: nat, j: nat, k: nat, l: nat)
    requires nk > 0 && nl > 0 && IsGrid(g, |g|, Width(g), nk, nl)
    requires i < |g| && j < Width(g) && k < nk && l < nl
    ensures |Block(g, nk, nl)| % nk == 0 && |Block(g, nk, nl)| / nk == |g|
    ensures Cols(Block(g, nk, nl)) % nl == 0 && Cols(Block(g, nk, nl)) / nl == Width(g)
    ensures Unblock(Block(g, nk, nl), nk, nl)[i][j][k][l] == g[i][j][k][l]
  {
    BlockShape(g, nk, nl);
    UnblockAt(Block(g, nk, nl), nk, nl, i, j, k, l);
    BlockAt(g, nk, nl, i, j, k, l);
  }

  lemma {:induction false} UnblockBlockRow(g: Grid, nk: nat, nl: nat, i: nat, j: nat, k: nat)
    requires nk > 0 && nl > 0 && IsGrid(g, |g|, Width(g), nk, nl)
    requires i < |g| && j < Width(g) && k < nk
    ensures |Block(g, nk, nl)| % nk == 0 && |Block(g, nk, nl)| / nk == |g|
    ensures Cols(Block(g, nk, nl)) % nl == 0 && Cols(Block(g, nk, nl)) / nl == Width(g)
    ensures Unblock(Block(g, nk, nl), nk, nl)[i][j][k] == g[i][j][k]
  {
    BlockShape(g, nk, nl);
    var h := Unblock(Block(g, nk, nl), nk, nl);
    forall l | 0 <= l < nl
      ensures h[i][j][k][l] == g[i][j][k][l]
    {
      UnblockBlockAt(g, nk, nl, i, j, k, l);
    }
  }

  /** Blocking and then unblocking with the same block shape gives back the block array. */
  lemma {:induction false} UnblockBlock(g: Grid, nk: nat, nl: nat)
    requires nk > 0 && nl > 0 && IsGrid(g, |g|, Width(g), nk, nl)
    ensures |Block(g, nk, nl)| % nk == 0 && Cols(Block(g, nk, nl)) % nl == 0
    ensures Unblock(Block(g, nk, nl), nk, nl) == g
  {
    BlockShape(g, nk, nl);
    var h := Unblock(Block(g, nk, nl), nk, nl);
    assert IsGrid(h, |g|, Width(g), nk, nl);
    forall i | 0 <= i < |g|
      ensures h[i] == g[i]
    {
      forall j | 0 <= j < Width(g)
        ensures h[i][j] == g[i][j]
      {
        forall k | 0 <= k < nk
          ensures h[i][j][k] == g[i][j][k]
        {
          UnblockBlockRow(g, nk, nl, i, j, k);
        }
      }
    }
  }

  /** Re-blocking an unblocked matrix restores the dense shape. */
  lemma {:induction false} UnblockShape(d: Matrix, nk: nat, nl: nat)
    requires nk > 0 && nl > 0 && Rect(d) && |d| % nk == 0 && Cols(d) % nl == 0
    ensures IsMatrix(Block(Unblock(d, nk, nl), nk, nl), |d|, Cols(d))
  {
    var g := Unblock(d, nk, nl);
    assert |d| == |d| / nk * nk;
    if |d| > 0 {
      assert Width(g) == Cols(d) / nl;
      assert Cols(d) == Cols(d) / nl * nl;
    }
  }

  lemma {:induction false} BlockUnblockAt(d: Matrix, nk: nat, nl: nat, r: nat, c: nat)
    requires nk > 0 && nl > 0 && Rect(d) && |d| % nk == 0 && Cols(d) % nl == 0
    requires r < |d| && c < Cols(d)
    ensures IsMatrix(Block(Unblock(d, nk, nl), nk, nl), |d|, Cols(d))
    ensures Block(Unblock(d, nk, nl), nk, nl)[r][c] == d[r][c]
  {
    UnblockShape(d, nk, nl);
    var ni, nj := |d| / nk, Cols(d) / nl;
    var g := Unblock(d, nk, nl);
    assert Width(g) == nj;
    DivBelow(r, ni, nk);
    DivBelow(c, nj, nl);
    var i, k, j, l := r / nk, r % nk, c / nl, c % nl;
    UnblockAt(d, nk, nl, i, j, k, l);
    BlockAt(g, nk, nl, i, j, k, l);
  }

  /** Unblocking an evenly divisible dense matrix and blocking it again gives it back. */
  lemma {:induction false} BlockUnblock(d: Matrix, nk: nat, nl: nat)
    requires nk > 0 && nl > 0 && Rect(d) && |d| % nk == 0 && Cols(d) % nl == 0
    ensures Block(Unblock(d, nk, nl), nk, nl) == d
  {
    UnblockShape(d, nk, nl);
    var e := Block(Unblock(d, nk, nl), nk, nl);
    forall r | 0 <= r < |d|
      ensures e[r] == d[r]
    {
      forall c | 0 <= c < Cols(d)
        ensures e[r][c] == d[r][c]
      {
        BlockUnblockAt(d, nk, nl, r, c);
      }
    }
  }

  /** The sub-array of block rows `r0..r1` and block columns `c0..c1`, as `G[r0:r1, c0:c1]`. */
  function SubGrid(g: Grid, r0: nat, r1: nat, c0: nat, c1: nat): (s: Grid)
    requires r0 <= r1 <= |g| && forall i | r0 <= i < r1 :: c0 <= c1 <= |g[i]|
    ensures |s| == r1 - r0
    ensures forall i, j | 0 <= i < r1 - r0 && 0 <= j < c1 - c0 :: |s[i]| == c1 - c0 && s[i][j] == g[r0 + i][c0 + j]
  {
    seq(r1 - r0, i requires 0 <= i < r1 - r0 => g[r0 + i][c0..c1])
  }

  /** A rectangular part of a block array is a block array with the same block shape. */
  lemma {:induction false} SubGridShape(g: Grid, ni: nat, nj: nat, nk: nat, nl: nat, r0: nat, r1: nat, c0: nat, c1: nat)
    requires IsGrid(g, ni, nj, nk, nl) && r0 < r1 <= ni && c0 <= c1 <= nj
    ensures IsGrid(SubGrid(g, r0, r1, c0, c1), r1 - r0, c1 - c0, nk, nl)
    ensures Width(SubGrid(g, r0, r1, c0, c1)) == c1 - c0
  {
  }
}
