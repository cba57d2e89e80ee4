/**
 What one online `step` and one offline `run` of the estimator compute, as
 functions of the state before them: the partition of the system into the
 previous pose and the rest, the Schur-complement reduction, the damped solve,
 the corrections, and the write-back into the sliding window.
 */
module Estimator {
  import opened Matrices
  import opened Blocks
  import opened Collaborators
  import opened InformationSystem
  import opened NodeMap
  import opened Edges

  datatype Option<T> = None | Some(value: T)

  // ---------------------------------------------------------------------
  // Solution vectors

  /** `np.reshape(col, [-1, w])` of a single column: row `r` holds entries `r*w .. r*w + w - 1`. */
  function Reshape(col: Matrix, w: nat): (rows: seq<seq<real>>)
    requires w > 0 && IsMatrix(col, |col|, 1) && |col| % w == 0
    ensures IsMatrix(rows, |col| / w, w)
  {
    var m := |col| / w;
    seq(m, r requires 0 <= r < m => seq(w, c requires 0 <= c < w => BandBound(r, c, m, w); col[r * w + c][0]))
  }

  /** Reshaping loses nothing: entry `k` of the column is entry `k % w` of row `k / w`. */
  lemma {:induction false} ReshapeAt(col: Matrix, w: nat, k: nat)
    requires w > 0 && IsMatrix(col, |col|, 1) && |col| % w == 0 && k < |col|
    ensures k / w < |col| / w && k % w < w
    ensures Reshape(col, w)[k / w][k % w] == col[k][0]
  {
    DivBelow(k, |col| / w, w);
  }

  /** A real square is never negative. */
  lemma {:induction false} SquareNonNegative(x: real)
    ensures x * x >= 0.0
  {
    if x > 0.0 {
      assert x * x > 0.0;
    } else if x < 0.0 {
      assert x * x > 0.0;
    }
  }

  /** Sum of the squares of a row's entries: never negative, and zero when every entry is. */
  function RowSquares(v: seq<real>): (s: real)
    ensures s >= 0.0
    ensures (forall c | 0 <= c < |v| :: v[c] == 0.0) ==> s == 0.0
    decreases |v|
  {
    if |v| == 0 then 0.0
    else
      var t := RowSquares(v[1..]);
      SquareNonNegative(v[0]);
      assert (forall c | 0 <= c < |v| :: v[c] == 0.0) ==> v[0] == 0.0 && forall c | 0 <= c < |v| - 1 :: v[1..][c] == 0.0;
      v[0] * v[0] + t
  }

  /** Sum of the squares of all entries: never negative, and zero when every entry is. */
  function SumSquares(rows: seq<seq<real>>): (s: real)
    ensures s >= 0.0
    ensures (forall r, c | 0 <= r < |rows| && 0 <= c < |rows[r]| :: rows[r][c] == 0.0) ==> s == 0.0
    decreases |rows|
  {
    if |rows| == 0 then 0.0
    else
      var h, t := RowSquares(rows[0]), SumSquares(rows[1..]);
      assert (forall r, c | 0 <= r < |rows| && 0 <= c < |rows[r]| :: rows[r][c] == 0.0) ==>
             (forall c | 0 <= c < |rows[0]| :: rows[0][c] == 0.0) &&
             (forall r, c | 0 <= r < |rows| - 1 && 0 <= c < |rows[1..][r]| :: rows[1..][r][c] == 0.0) by {
        if forall r, c | 0 <= r < |rows| && 0 <= c < |rows[r]| :: rows[r][c] == 0.0 {
          forall r, c | 0 <= r < |rows| - 1 && 0 <= c < |rows[1..][r]|
            ensures rows[1..][r][c] == 0.0
          {
            assert rows[1..][r] == rows[r + 1];
          }
        }
      }
      h + t
  }

  /** `np.mean(np.square(dx))` for an m-by-w correction with m, w > 0: never negative, and zero when the correction is. */
  function MeanSquare(dx: seq<seq<real>>, w: nat): (d: real)
    requires |dx| > 0 && w > 0 && IsMatrix(dx, |dx|, w)
    ensures d >= 0.0
    ensures (forall r, c | 0 <= r < |dx| && 0 <= c < w :: dx[r][c] == 0.0) ==> d == 0.0
  {
    MultipleAtLeast(|dx|, w);
    SumSquares(dx) / (|dx| * w) as real
  }

  // ---------------------------------------------------------------------
  // Marginalizing the previous pose

  /** The reduced system over `[x1, l0, ..., ln]` and its damped least-squares correction. */
  datatype Reduction = Reduction(H: Matrix, B: Matrix, dx: seq<seq<real>>)

  /** Blocks `[r0, r1) x [c0, c1)` of a system matrix as one dense matrix: `block(H[r0:r1, c0:c1])`. */
  function Tile(h: Grid, r0: nat, r1: nat, c0: nat, c1: nat): (m: Matrix)
    requires IsGrid(h, |h|, |h|, 6, 6) && r0 < r1 <= |h| && c0 < c1 <= |h|
    ensures IsMatrix(m, (r1 - r0) * 6, (c1 - c0) * 6)
  {
    SubGridShape(h, |h|, |h|, 6, 6, r0, r1, c0, c1);
    Block(SubGrid(h, r0, r1, c0, c1), 6, 6)
  }

  /** Entries `[r0, r1)` of a system vector as one dense column: `block(b[r0:r1, :1])`. */
  function TileB(b: seq<Matrix>, r0: nat, r1: nat): (m: Matrix)
    requires (forall i | 0 <= i < |b| :: IsMatrix(b[i], 6, 1)) && r0 < r1 <= |b|
    ensures IsMatrix(m, (r1 - r0) * 6, 1)
  {
    var bg := AsColumn(b);
    assert IsGrid(bg, |b|, 1, 6, 1);
    SubGridShape(bg, |b|, 1, 6, 1, r0, r1, 0, 1);
    Block(SubGrid(bg, r0, r1, 0, 1), 6, 1)
  }

  /**
   Partition of the system into node 0 and nodes `1..n-1`, Schur complement
   `H11 - (H10 pinv(H00)) H01`, `B10 - (H10 pinv(H00)) B00`, Marquardt damping
   `lambda * I`, least squares on `-B`, and the solution reshaped into rows of 6.
   */
  function Marginalize(ops: Oracles, lambda: real, h: Grid, b: seq<Matrix>): (red: Reduction)
    requires ops.WellShaped() && |h| >= 2 && IsSystem(h, b, |h|)
    ensures IsMatrix(red.H, (|h| - 1) * 6, (|h| - 1) * 6) && IsMatrix(red.B, (|h| - 1) * 6, 1)
    ensures IsMatrix(red.dx, |h| - 1, 6)
  {
    var n := |h|;
    var h00, h01 := Tile(h, 0, 1, 0, 1), Tile(h, 0, 1, 1, n);
    var h10, h11 := Tile(h, 1, n, 0, 1), Tile(h, 1, n, 1, n);
    var b00, b10 := TileB(b, 0, 1), TileB(b, 1, n);
    var atbi := MatMul(h10, ops.pinv(h00));
    var hr := Sub(h11, MatMul(atbi, h01));
    var br := Sub(b10, MatMul(atbi, b00));
    var damped := Add(hr, Scale(lambda, Identity(|hr|)));
    var sol := ops.lstsq(damped, Neg(br));
    DivModOf(n - 1, 0, 6);
    Reduction(hr, br, Reshape(sol, 6))
  }

  /**
   The partition is exact: block `(i, j)` of the system, for `i, j >= 1`, is the
   6x6 tile of `H11` at offset `(6(i-1), 6(j-1))`, and node 0's own block is `H00`.
   */
  lemma {:induction false} PartitionAt(h: Grid, i: nat, j: nat, k: nat, l: nat)
    requires |h| >= 2 && IsGrid(h, |h|, |h|, 6, 6)
    requires 1 <= i < |h| && 1 <= j < |h| && k < 6 && l < 6
    ensures (i - 1) * 6 + k < (|h| - 1) * 6 && (j - 1) * 6 + l < (|h| - 1) * 6
    ensures Block(SubGrid(h, 1, |h|, 1, |h|), 6, 6)[(i - 1) * 6 + k][(j - 1) * 6 + l] == h[i][j][k][l]
    ensures Block(SubGrid(h, 0, 1, 0, 1), 6, 6) == h[0][0]
  {
    var g := SubGrid(h, 1, |h|, 1, |h|);
    BlockAt(g, 6, 6, i - 1, j - 1, k, l);
    var g0 := SubGrid(h, 0, 1, 0, 1);
    var d := Block(g0, 6, 6);
    forall r | 0 <= r < 6
      ensures d[r] == h[0][0][r]
    {
      forall c | 0 <= c < 6
        ensures d[r][c] == h[0][0][r][c]
      {
        BlockAt(g0, 6, 6, 0, 0, r, c);
      }
    }
  }

  /** The column `block(b[r0:r1, :1])` holds entry `k` of `b[i]` at row `6(i - r0) + k`. */
  lemma {:induction false} TileBAt(b: seq<Matrix>, r0: nat, r1: nat, i: nat, k: nat)
    requires (forall q | 0 <= q < |b| :: IsMatrix(b[q], 6, 1)) && r0 <= i < r1 <= |b| && k < 6
    ensures (i - r0) * 6 + k < (r1 - r0) * 6
    ensures TileB(b, r0, r1)[(i - r0) * 6 + k][0] == b[i][k][0]
  {
    var bg := AsColumn(b);
    assert IsGrid(bg, |b|, 1, 6, 1);
    SubGridShape(bg, |b|, 1, 6, 1, r0, r1, 0, 1);
    BlockAt(SubGrid(bg, r0, r1, 0, 1), 6, 1, i - r0, 0, k, 0);
  }

  /** A product with a zero left factor is zero. */
  lemma {:induction false} MatMulZeroLeft(a: Matrix, b: Matrix)
    requires IsMatrix(a, |a|, |b|) && Rect(b)
    requires forall i, k | 0 <= i < |a| && 0 <= k < |b| :: a[i][k] == 0.0
    ensures forall i, j | 0 <= i < |a| && 0 <= j < Cols(b) :: MatMul(a, b)[i][j] == 0.0
  {
    forall i, j | 0 <= i < |a| && 0 <= j < Cols(b)
      ensures MatMul(a, b)[i][j] == 0.0
    {
      DotZeroLeft(a[i], Column(b, j));
    }
  }

  lemma {:induction false} SubZero(a: Matrix, z: Matrix)
    requires Rect(a) && IsMatrix(z, |a|, Cols(a))
    requires forall i, j | 0 <= i < |a| && 0 <= j < Cols(a) :: z[i][j] == 0.0
    ensures Sub(a, z) == a
  {
    var s := Sub(a, z);
    forall i | 0 <= i < |a|
      ensures s[i] == a[i]
    {
    }
  }

  /** No node other than 0 carries information about node 0: every block `H[j, 0]`, `j >= 1`, is zero. */
  predicate Uncoupled(h: Grid) {
    && |h| >= 2 && IsGrid(h, |h|, |h|, 6, 6)
    && forall j, k, l | 1 <= j < |h| && 0 <= k < 6 && 0 <= l < 6 :: h[j][0][k][l] == 0.0
  }

  /** The block column below node 0 is zero when every block `H[j, 0]`, `j >= 1`, is. */
  lemma {:induction false} LowerColumnZero(h: Grid)
    requires Uncoupled(h)
    ensures forall r, c | 0 <= r < (|h| - 1) * 6 && 0 <= c < 6 :: Block(SubGrid(h, 1, |h|, 0, 1), 6, 6)[r][c] == 0.0
  {
    var n := |h|;
    var g10 := SubGrid(h, 1, n, 0, 1);
    forall r, c | 0 <= r < (n - 1) * 6 && 0 <= c < 6
      ensures Block(g10, 6, 6)[r][c] == 0.0
    {
      DivBelow(r, n - 1, 6);
      var i, k := r / 6, r % 6;
      assert r == i * 6 + k;
      BlockAt(g10, 6, 6, i, 0, k, c);
      assert g10[i][0] == h[1 + i][0];
    }
  }

  /**
   When no other node carries information about node 0 (`H[j, 0] == 0` for
   `j >= 1`), marginalizing node 0 leaves the rest of the system as it is: the
   reduced matrix is `H11` and the reduced vector is `B10`.
   */
  lemma {:induction false} MarginalizeUncoupled(ops: Oracles, lambda: real, h: Grid, b: seq<Matrix>)
    requires ops.WellShaped() && IsSystem(h, b, |h|) && Uncoupled(h)
    ensures Marginalize(ops, lambda, h, b).H == Block(SubGrid(h, 1, |h|, 1, |h|), 6, 6)
    ensures Marginalize(ops, lambda, h, b).B == Block(SubGrid(AsColumn(b), 1, |h|, 0, 1), 6, 1)
  {
    var n := |h|;
    var bg := AsColumn(b);
    var h00 := Block(SubGrid(h, 0, 1, 0, 1), 6, 6);
    var h01 := Block(SubGrid(h, 0, 1, 1, n), 6, 6);
    var h10 := Block(SubGrid(h, 1, n, 0, 1), 6, 6);
    var h11 := Block(SubGrid(h, 1, n, 1, n), 6, 6);
    var b00 := Block(SubGrid(bg, 0, 1, 0, 1), 6, 1);
    var b10 := Block(SubGrid(bg, 1, n, 0, 1), 6, 1);
    var pinv := ops.pinv(h00);
    LowerColumnZero(h);
    MatMulZeroLeft(h10, pinv);
    var atbi := MatMul(h10, pinv);
    MatMulZeroLeft(atbi, h01);
    MatMulZeroLeft(atbi, b00);
    SubZero(h11, MatMul(atbi, h01));
    SubZero(b10, MatMul(atbi, b00));
  }

  // ---------------------------------------------------------------------
  // One online step

  /** The node map after the motion update: node 1 predicted from node 0 by the relative motion `x`. */
  function Moved(ops: Oracles, nodes: Nodes, x: Option<Pose>): (r: Nodes)
    requires x.Some? ==> 0 in nodes
    ensures r.Keys == if x.Some? then nodes.Keys + {1} else nodes.Keys
    ensures forall k | k in nodes && (x.None? || k != 1) :: r[k] == nodes[k]
  {
    if x.Some? then nodes[1 := ops.xaddRel(nodes[0], x.value)] else nodes
  }

  /** The update list `zis`: 1 for a motion update, then every observation's target, duplicates included. */
  function Updates(x: Option<Pose>, zs: seq<Edge>): (zis: seq<nat>)
    ensures x.Some? ==> |zis| == |zs| + 1 && zis[0] == 1 && zis[1..] == TargetList(zs)
    ensures x.None? ==> zis == TargetList(zs)
  {
    (if x.Some? then [1] else []) + TargetList(zs)
  }

  /** Every id on the update list is the motion's node 1 or an observation's target. */
  lemma {:induction false} UpdatesFrom(x: Option<Pose>, zs: seq<Edge>, k: nat)
    ensures k in Updates(x, zs) <==> (x.Some? && k == 1) || k in Targets(zs)
  {
    var zis := Updates(x, zs);
    if k in Targets(zs) {
      TargetsListed(zs, k);
      var i :| 0 <= i < |zs| && zs[i].z1 == k;
      if x.Some? {
        assert zis[i + 1] == k;
      } else {
        assert zis[i] == k;
      }
    }
    if k in zis && !(x.Some? && k == 1) {
      var i :| 0 <= i < |zis| && zis[i] == k;
      var j := if x.Some? then i - 1 else i;
      assert zs[j].z1 == k;
    }
  }

  /**
   What `step` needs of its state and arguments to run to the end without a
   lookup or an index failing: a window of at least two poses, node 0 known
   when there is a motion, every observation fitting when it is reached
   (`StepFits`), and node 1 known by the time the previous pose is replaced.
   */
  ghost predicate StepReady(ops: Oracles, s: Snapshot, x: Option<Pose>, zs: seq<Edge>) {
    && ops.WellShaped() && |s.H| >= 2 && IsSystem(s.H, s.b, |s.H|)
    && (x.Some? ==> 0 in s.nodes)
    && StepFits(Moved(ops, s.nodes, x).Keys, zs, |s.H|)
    && 1 in Moved(ops, s.nodes, x).Keys + Targets(zs)
  }

  /** The state after "expand" and the motion update. */
  function Prepared(ops: Oracles, s: Snapshot, x: Option<Pose>): (r: Snapshot)
    requires |s.H| >= 2 && IsSystem(s.H, s.b, |s.H|) && (x.Some? ==> 0 in s.nodes)
    ensures IsSystem(r.H, r.b, |s.H|) && r.nodes == Moved(ops, s.nodes, x)
  {
    Snapshot(Moved(ops, s.nodes, x), Expanded(s.H), ExpandedB(s.b))
  }

  /** The state after the observation loop. */
  function Observed(ops: Oracles, s: Snapshot, x: Option<Pose>, zs: seq<Edge>): (r: Snapshot)
    requires StepReady(ops, s, x, zs)
    ensures IsSystem(r.H, r.b, |s.H|)
    ensures r.nodes.Keys == Moved(ops, s.nodes, x).Keys + Targets(zs)
    ensures forall k | k in Moved(ops, s.nodes, x) :: r.nodes[k] == Moved(ops, s.nodes, x)[k]
  {
    StepPass(ops, Prepared(ops, s, x), zs)
  }

  /** Every id on the update list is among `keys` and below `n` when node 1 and every target are. */
  lemma {:induction false} UpdatesWithin(x: Option<Pose>, zs: seq<Edge>, keys: set<nat>, n: nat)
    requires (x.Some? ==> 1 in keys) && Targets(zs) <= keys && n >= 2
    requires forall k | 0 <= k < |zs| :: zs[k].z1 < n
    ensures forall k | 0 <= k < |Updates(x, zs)| :: Updates(x, zs)[k] in keys && Updates(x, zs)[k] < n
  {
    var zis := Updates(x, zs);
    var ts := TargetList(zs);
    forall k | 0 <= k < |zis|
      ensures zis[k] in keys && zis[k] < n
    {
      if x.Some? && k == 0 {
        assert zis[k] == 1;
      } else {
        var j := if x.Some? then k - 1 else k;
        assert zis[k] == ts[j] by {
          if x.Some? {
            assert zis[1..][j] == ts[j];
          }
        }
        assert zs[j].z1 in Targets(zs);
      }
    }
  }

  /** Every id on the update list names a node of the observed state and a slot of the window. */
  lemma {:induction false} UpdatesKnown(ops: Oracles, s: Snapshot, x: Option<Pose>, zs: seq<Edge>)
    requires StepReady(ops, s, x, zs)
    ensures forall k | 0 <= k < |Updates(x, zs)| ::
      Updates(x, zs)[k] in Observed(ops, s, x, zs).nodes && Updates(x, zs)[k] < |s.H|
  {
    StepFitsTargets(Moved(ops, s.nodes, x).Keys, zs, |s.H|);
    UpdatesWithin(x, zs, Observed(ops, s, x, zs).nodes.Keys, |s.H|);
  }

  /**
   The end of a step, after the reduction: the corrections of every node on
   the update list, the previous pose replaced by the current one, and the
   reduced system written back around row and column 1.
   */
  function Slide(ops: Oracles, a: Snapshot, red: Reduction, zis: seq<nat>): (r: Snapshot)
    requires |a.H| >= 2 && IsSystem(a.H, a.b, |a.H|) && 1 in a.nodes
    requires IsMatrix(red.H, (|a.H| - 1) * 6, (|a.H| - 1) * 6) && IsMatrix(red.B, (|a.H| - 1) * 6, 1)
    requires IsMatrix(red.dx, |a.H| - 1, 6)
    requires forall k | 0 <= k < |zis| :: zis[k] in a.nodes && zis[k] < |a.H|
    ensures IsSystem(r.H, r.b, |a.H|)
    ensures r.nodes.Keys == a.nodes.Keys + {0}
    ensures r.nodes[0] == r.nodes[1]
  {
    var n := |a.H|;
    var c := Corrected(ops, a.nodes, zis, red.dx);
    DivModOf(n - 1, 0, 6);
    var rh, rb := Unblock(red.H, 6, 6), Unblock(red.B, 6, 1);
    Snapshot(c[0 := c[1]], WriteBackH(a.H, rh), WriteBackB(a.b, rb))
  }

  /**
   One online step: expand, motion update, observations, marginalization of
   the previous pose, then the slide.
   */
  function StepSpec(ops: Oracles, lambda: real, s: Snapshot, x: Option<Pose>, zs: seq<Edge>): (r: Snapshot)
    requires StepReady(ops, s, x, zs)
    ensures IsSystem(r.H, r.b, |s.H|)
    ensures r.nodes.Keys == Moved(ops, s.nodes, x).Keys + Targets(zs) + {0}
    ensures 0 in r.nodes && 1 in r.nodes && r.nodes[0] == r.nodes[1]
  {
    var a := Observed(ops, s, x, zs);
    UpdatesKnown(ops, s, x, zs);
    Slide(ops, a, Marginalize(ops, lambda, a.H, a.b), Updates(x, zs))
  }

  /**
   The slide's corrections, node by node: a node on the update list is
   corrected once per occurrence by its row of the solution, any other node
   other than 0 keeps its estimate.
   */
  lemma {:induction false} SlideNodes(ops: Oracles, a: Snapshot, red: Reduction, zis: seq<nat>, k: nat)
    requires |a.H| >= 2 && IsSystem(a.H, a.b, |a.H|) && 1 in a.nodes
    requires IsMatrix(red.H, (|a.H| - 1) * 6, (|a.H| - 1) * 6) && IsMatrix(red.B, (|a.H| - 1) * 6, 1)
    requires IsMatrix(red.dx, |a.H| - 1, 6)
    requires forall j | 0 <= j < |zis| :: zis[j] in a.nodes && zis[j] < |a.H|
    requires k != 0 && k in a.nodes
    ensures k !in zis ==> Slide(ops, a, red, zis).nodes[k] == a.nodes[k]
    ensures k in zis ==> k <= |red.dx|
    ensures k in zis ==> Slide(ops, a, red, zis).nodes[k] == Repeat(ops.xaddAbs, a.nodes[k], red.dx[RowOf(k, |red.dx|)], multiset(zis)[k])
  {
    CorrectedAt(ops, a.nodes, zis, red.dx, k);
  }

  /**
   After a step, node 0 holds node 1's estimate (its `ensures`); every other
   node on the update list was corrected once per occurrence by its row of the
   solution, starting from its estimate after the observation loop; every other
   node already known keeps its estimate.
   */
  lemma {:induction false} StepNodes(ops: Oracles, lambda: real, s: Snapshot, x: Option<Pose>, zs: seq<Edge>, k: nat)
    requires StepReady(ops, s, x, zs) && k != 0 && k in StepSpec(ops, lambda, s, x, zs).nodes
    ensures var a := Observed(ops, s, x, zs);
      var dx := Marginalize(ops, lambda, a.H, a.b).dx;
      var zis := Updates(x, zs);
      k in a.nodes && |dx| == |s.H| - 1 &&
      (k in zis ==> k <= |dx| && StepSpec(ops, lambda, s, x, zs).nodes[k] == Repeat(ops.xaddAbs, a.nodes[k], dx[RowOf(k, |dx|)], multiset(zis)[k])) &&
      (k !in zis && k in s.nodes ==> StepSpec(ops, lambda, s, x, zs).nodes[k] == s.nodes[k])
  {
    var a := Observed(ops, s, x, zs);
    var red := Marginalize(ops, lambda, a.H, a.b);
    var zis := Updates(x, zs);
    UpdatesKnown(ops, s, x, zs);
    UpdatesFrom(x, zs, k);
    assert StepSpec(ops, lambda, s, x, zs) == Slide(ops, a, red, zis);
    SlideNodes(ops, a, red, zis, k);
  }

  /** A step with neither motion nor observations, on a window whose two poses agree, changes no estimate. */
  lemma {:induction false} StepIdle(ops: Oracles, lambda: real, s: Snapshot)
    requires StepReady(ops, s, None, []) && 0 in s.nodes && s.nodes[0] == s.nodes[1]
    ensures StepSpec(ops, lambda, s, None, []).nodes == s.nodes
  {
    var a := Observed(ops, s, None, []);
    assert a.nodes == s.nodes;
    var red := Marginalize(ops, lambda, a.H, a.b);
    assert Updates(None, []) == [];
    assert Corrected(ops, a.nodes, [], red.dx) == s.nodes;
    assert s.nodes[0 := s.nodes[1]] == s.nodes;
  }

  /** With symmetric weights, the system a step marginalizes is symmetric whenever the window was. */
  lemma {:induction false} ObservedSymmetric(ops: Oracles, s: Snapshot, x: Option<Pose>, zs: seq<Edge>)
    requires StepReady(ops, s, x, zs) && SymmetricGrid(s.H) && SymmetricWeights(zs)
    ensures SymmetricGrid(Observed(ops, s, x, zs).H)
  {
    ExpandedSymmetric(s.H);
    var p := Prepared(ops, s, x);
    StepPassSymmetric(ops, p, zs);
  }

  /** The node a slot other than 1 holds after the window slides: slot 0 takes node 1, every other slot keeps its node. */
  function Source(i: nat): (j: nat)
    requires i != 1
    ensures j == Reduced(i) + 1
  {
    if i == 0 then 1 else i
  }

  /**
   `r` is `h` with the window slid by one pose: each slot other than 1 holds the
   blocks of its `Source` node, and row and column 1 are as in `h`.
   */
  predicate Slid(r: Grid, h: Grid) {
    && |h| >= 2 && IsGrid(h, |h|, |h|, 6, 6) && IsGrid(r, |h|, |h|, 6, 6)
    && forall i, j | 0 <= i < |h| && 0 <= j < |h| ::
         r[i][j] == if i == 1 || j == 1 then h[i][j] else h[Source(i)][Source(j)]
  }

  /** Writing back the lower-right part of `h` itself moves node 1's blocks to slot 0 and keeps row and column 1. */
  lemma {:induction false} WriteBackShifts(h: Grid)
    requires |h| >= 2 && IsGrid(h, |h|, |h|, 6, 6)
    ensures IsGrid(SubGrid(h, 1, |h|, 1, |h|), |h| - 1, |h| - 1, 6, 6)
    ensures Slid(WriteBackH(h, SubGrid(h, 1, |h|, 1, |h|)), h)
  {
    var n := |h|;
    var g := SubGrid(h, 1, n, 1, n);
    SubGridShape(h, n, n, 6, 6, 1, n, 1, n);
    var r := WriteBackH(h, g);
    forall i, j | 0 <= i < n && 0 <= j < n && i != 1 && j != 1
      ensures r[i][j] == h[Source(i)][Source(j)]
    {
      var p, q := Reduced(i), Reduced(j);
      assert r[Slot(p)][Slot(q)] == g[p][q];
    }
  }

  /** A slide whose reduced `H` is the lower-right part of `a.H` keeps row and column 1 and moves node 1's blocks to slot 0. */
  lemma {:induction false} SlideShifts(ops: Oracles, a: Snapshot, red: Reduction, zis: seq<nat>)
    requires |a.H| >= 2 && IsSystem(a.H, a.b, |a.H|) && 1 in a.nodes
    requires IsMatrix(red.B, (|a.H| - 1) * 6, 1) && IsMatrix(red.dx, |a.H| - 1, 6)
    requires forall j | 0 <= j < |zis| :: zis[j] in a.nodes && zis[j] < |a.H|
    requires red.H == Block(SubGrid(a.H, 1, |a.H|, 1, |a.H|), 6, 6)
    ensures Slid(Slide(ops, a, red, zis).H, a.H)
  {
    var n := |a.H|;
    var g := SubGrid(a.H, 1, n, 1, n);
    WriteBackShifts(a.H);
    UnblockBlock(g, 6, 6);
    BlockShape(g, 6, 6);
    assert Slide(ops, a, red, zis).H == WriteBackH(a.H, g);
  }

  /**
   When no other node carries information about the previous pose, the step
   slides the window: the blocks of node 1 move to slot 0, the blocks among
   landmarks stay where they are, and row and column 1 keep what the
   observations put there.
   */
  lemma {:induction false} StepSlides(ops: Oracles, lambda: real, s: Snapshot, x: Option<Pose>, zs: seq<Edge>)
    requires StepReady(ops, s, x, zs) && Uncoupled(Observed(ops, s, x, zs).H)
    ensures Slid(StepSpec(ops, lambda, s, x, zs).H, Observed(ops, s, x, zs).H)
  {
    var a := Observed(ops, s, x, zs);
    var red := Marginalize(ops, lambda, a.H, a.b);
    var zis := Updates(x, zs);
    UpdatesKnown(ops, s, x, zs);
    MarginalizeUncoupled(ops, lambda, a.H, a.b);
    assert StepSpec(ops, lambda, s, x, zs) == Slide(ops, a, red, zis);
    SlideShifts(ops, a, red, zis);
  }

  // ---------------------------------------------------------------------
  // The offline solver

  /** What `run` needs: at least one node slot, edges inside the slots, and every source known when reached. */
  ghost predicate RunReady(ops: Oracles, keys: set<nat>, zs: seq<Edge>, n: nat) {
    ops.WellShaped() && n >= 1 && EdgesFit(zs, n) && SourcesKnown(keys, zs)
  }

  /** Knowing more nodes keeps `run` ready. */
  lemma {:induction false} RunReadyGrow(ops: Oracles, keys: set<nat>, more: set<nat>, zs: seq<Edge>, n: nat)
    requires RunReady(ops, keys, zs, n) && keys <= more
    ensures RunReady(ops, more, zs, n)
  {
    SourcesKnownGrow(keys, more, zs);
  }

  /** The system one iteration of `run` solves: rebuilt from zero, every edge accumulated, then anchored with `H[0, 0] += I`. */
  function RunSystem(ops: Oracles, nodes: Nodes, zs: seq<Edge>, n: nat): (p: Snapshot)
    requires RunReady(ops, nodes.Keys, zs, n)
    ensures IsSystem(p.H, p.b, n) && p.nodes.Keys == nodes.Keys + Targets(zs)
    ensures forall k | k in nodes :: p.nodes[k] == nodes[k]
  {
    var p := RunPass(ops, Snapshot(nodes, ZeroH(n), ZeroB(n)), zs);
    p.(H := Anchored(p.H))
  }

  /** With symmetric weights, every system `run` solves is symmetric. */
  lemma {:induction false} RunSystemSymmetric(ops: Oracles, nodes: Nodes, zs: seq<Edge>, n: nat)
    requires RunReady(ops, nodes.Keys, zs, n) && SymmetricWeights(zs)
    ensures SymmetricGrid(RunSystem(ops, nodes, zs, n).H)
  {
    ZeroHSymmetric(n);
    var s := Snapshot(nodes, ZeroH(n), ZeroB(n));
    RunPassSymmetric(ops, s, zs);
    AnchoredSymmetric(RunPass(ops, s, zs).H);
  }

  /** The outcome of one iteration: corrected estimates, the correction, and its mean square. */
  datatype Sweep = Sweep(nodes: Nodes, dx: seq<seq<real>>, delta: real)

  /** One iteration of `run`: solve the full system by least squares and correct every node below `n` by its row. */
  function RunSweep(ops: Oracles, nodes: Nodes, zs: seq<Edge>, n: nat): (w: Sweep)
    requires RunReady(ops, nodes.Keys, zs, n)
    ensures w.nodes.Keys == nodes.Keys + Targets(zs)
    ensures IsMatrix(w.dx, n, 6) && w.delta >= 0.0
  {
    var p := RunSystem(ops, nodes, zs, n);
    var sol := ops.lstsq(Block(p.H, 6, 6), Neg(Block(AsColumn(p.b), 6, 1)));
    DivModOf(n, 0, 6);
    var dx := Reshape(sol, 6);
    Sweep(CorrectAll(ops, p.nodes, dx, n), dx, MeanSquare(dx, 6))
  }

  /** The estimates `run` ends with and the mean-square correction of each iteration it performed. */
  datatype Trace = Trace(nodes: Nodes, deltas: seq<real>)

  /**
   The stopping rule of `run` on the mean-square corrections of the iterations
   performed: at most `iters` of them, none but the last below `tol`, and the
   last below `tol` whenever fewer than `iters` were performed.
   */
  predicate Stopping(deltas: seq<real>, iters: nat, tol: real) {
    && |deltas| <= iters
    && (forall k | 0 <= k < |deltas| - 1 :: deltas[k] >= tol)
    && (|deltas| < iters ==> |deltas| > 0 && deltas[|deltas| - 1] < tol)
    && (forall k | 0 <= k < |deltas| :: deltas[k] >= 0.0)
  }

  /** An iteration that does not stop, followed by a run that keeps the rule with one iteration fewer, keeps the rule. */
  lemma {:induction false} StoppingCons(d: real, deltas: seq<real>, iters: nat, tol: real)
    requires iters > 0 && d >= tol && d >= 0.0 && Stopping(deltas, Fewer(iters), tol)
    ensures Stopping([d] + deltas, iters, tol)
  {
    var ds := [d] + deltas;
    assert forall k | 0 <= k < |deltas| :: ds[k + 1] == deltas[k];
  }

  /**
   The iterations still allowed after one more. Every statement about the rest
   of a run names this one term, so that the counts agree by construction.
   */
  function Fewer(iters: nat): (r: nat)
    requires iters > 0
    ensures r < iters
  {
    iters - 1
  }

  /**
   `run` with at most `iters` iterations: it stops after the first iteration
   whose mean-square correction is below `tol`, and otherwise after `iters`.
   */
  function RunSpec(ops: Oracles, nodes: Nodes, zs: seq<Edge>, n: nat, iters: nat, tol: real): (t: Trace)
    requires iters > 0 ==> RunReady(ops, nodes.Keys, zs, n)
    ensures Stopping(t.deltas, iters, tol)
    ensures iters == 0 ==> t.nodes == nodes
    ensures iters > 0 ==> t.nodes.Keys == nodes.Keys + Targets(zs)
    decreases iters
  {
    if iters == 0 then Trace(nodes, [])
    else
      var w := RunSweep(ops, nodes, zs, n);
      if w.delta < tol then Trace(w.nodes, [w.delta])
      else
        RunReadyGrow(ops, nodes.Keys, w.nodes.Keys, zs, n);
        var t := RunSpec(ops, w.nodes, zs, n, Fewer(iters), tol);
        assert w.nodes.Keys + Targets(zs) == w.nodes.Keys;
        StoppingCons(w.delta, t.deltas, iters, tol);
        Trace(t.nodes, [w.delta] + t.deltas)
  }

  /** A sweep only adds nodes, so `run` stays ready for the next one. */
  lemma {:induction false} RunSweepReady(ops: Oracles, nodes: Nodes, zs: seq<Edge>, n: nat)
    requires RunReady(ops, nodes.Keys, zs, n)
    ensures RunReady(ops, RunSweep(ops, nodes, zs, n).nodes.Keys, zs, n)
  {
    RunReadyGrow(ops, nodes.Keys, RunSweep(ops, nodes, zs, n).nodes.Keys, zs, n);
  }

  /** `run` stops with the first sweep's estimates when that sweep's correction is below `tol`. */
  lemma {:induction false} RunSpecStop(ops: Oracles, nodes: Nodes, zs: seq<Edge>, n: nat, iters: nat, tol: real)
    requires RunReady(ops, nodes.Keys, zs, n) && iters > 0
    ensures RunSweep(ops, nodes, zs, n).delta < tol ==> RunSpec(ops, nodes, zs, n, iters, tol).nodes == RunSweep(ops, nodes, zs, n).nodes
  {
  }

  /** Otherwise `run` goes on from the first sweep's estimates with one iteration fewer. */
  lemma {:induction false} RunSpecContinue(ops: Oracles, nodes: Nodes, zs: seq<Edge>, n: nat, iters: nat, tol: real)
    requires RunReady(ops, nodes.Keys, zs, n) && iters > 0
    requires RunReady(ops, RunSweep(ops, nodes, zs, n).nodes.Keys, zs, n)
    ensures RunSweep(ops, nodes, zs, n).delta >= tol ==>
      RunSpec(ops, nodes, zs, n, iters, tol).nodes == RunSpec(ops, RunSweep(ops, nodes, zs, n).nodes, zs, n, Fewer(iters), tol).nodes
  {
  }

  /** With a non-positive tolerance the mean-square correction is never below it, so `run` performs every iteration. */
  lemma {:induction false} RunNoEarlyExit(ops: Oracles, nodes: Nodes, zs: seq<Edge>, n: nat, iters: nat, tol: real)
    requires (iters > 0 ==> RunReady(ops, nodes.Keys, zs, n)) && tol <= 0.0
    ensures |RunSpec(ops, nodes, zs, n, iters, tol).deltas| == iters
  {
  }
}
