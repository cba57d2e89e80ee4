/**
 The estimator object `GraphSlam3`: the node map and the sliding-window
 information system it updates in place, with `initialize`,
 `initialize_n`, the online `step` and the offline `run`. Each method is
 proved to leave exactly the state that the specification functions of
 the other modules describe.
 */
module Slam {
  import opened Matrices
  import opened Blocks
  import opened Collaborators
  import opened InformationSystem
  import opened NodeMap
  import opened Edges
  import opened Estimator

  /** The block grid an n-by-n array of blocks holds. */
  function GridOf(a: array2<Matrix>): (g: Grid)
    reads a
    ensures |g| == a.Length0
    ensures forall i | 0 <= i < a.Length0 :: |g[i]| == a.Length1
    ensures forall i, j | 0 <= i < a.Length0 && 0 <= j < a.Length1 :: g[i][j] == a[i, j]
  {
    var g := seq(a.Length0, i requires 0 <= i < a.Length0 reads a => seq(a.Length1, j requires 0 <= j < a.Length1 reads a => a[i, j]));
    assert forall i, j | 0 <= i < a.Length0 && 0 <= j < a.Length1 :: g[i][j] == a[i, j];
    g
  }

  /** Two n-by-n grids that agree block by block are equal. */
  lemma {:induction false} GridsEqual(g: Grid, h: Grid, n: nat)
    requires |g| == n && |h| == n
    requires forall i | 0 <= i < n :: |g[i]| == n && |h[i]| == n
    requires forall i, j | 0 <= i < n && 0 <= j < n :: g[i][j] == h[i][j]
    ensures g == h
  {
    forall i | 0 <= i < n
      ensures g[i] == h[i]
    {
      assert forall j | 0 <= j < n :: g[i][j] == h[i][j];
    }
  }

  /** `H[i, j] += m`, in place. */
  method AddBlock(h: array2<Matrix>, i: nat, j: nat, m: Matrix)
    requires h.Length0 == h.Length1 && i < h.Length0 && j < h.Length0
    requires Rect(h[i, j]) && IsMatrix(m, |h[i, j]|, Cols(h[i, j]))
    modifies h
    ensures GridOf(h) == Upd(old(GridOf(h)), i, j, Add(old(h[i, j]), m))
  {
    ghost var g := GridOf(h);
    h[i, j] := Add(h[i, j], m);
    GridsEqual(GridOf(h), Upd(g, i, j, h[i, j]), h.Length0);
  }

  /** One edge's four in-place block updates of `H`, in the source's order. */
  method AccumulateInto(h: array2<Matrix>, z0: nat, z1: nat, lin: Linearization, o: Matrix)
    requires h.Length0 == h.Length1 && IsGrid(GridOf(h), h.Length0, h.Length0, 6, 6)
    requires z0 < h.Length0 && z1 < h.Length0 && Shaped(lin) && IsMatrix(o, 6, 6)
    modifies h
    ensures GridOf(h) == AccumulateH(old(GridOf(h)), z0, z1, lin, o)
  {
    var a, b := lin.A, lin.B;
    AddBlock(h, z0, z0, Gram(a, o, a));
    AddBlock(h, z0, z1, Gram(a, o, b));
    AddBlock(h, z1, z0, Gram(b, o, a));
    AddBlock(h, z1, z1, Gram(b, o, b));
  }

  /** One edge's two in-place updates of `b`, in the source's order. */
  method AccumulateVec(v: array<Matrix>, z0: nat, z1: nat, lin: Linearization, o: Matrix)
    requires (forall i | 0 <= i < v.Length :: IsMatrix(v[i], 6, 1)) && z0 < v.Length && z1 < v.Length
    requires Shaped(lin) && IsMatrix(o, 6, 6)
    modifies v
    ensures v[..] == AccumulateB(old(v[..]), z0, z1, lin, o)
  {
    v[z0] := Add(v[z0], Gram(lin.A, o, lin.e));
    v[z1] := Add(v[z1], Gram(lin.B, o, lin.e));
  }

  /** A fresh n-node system, all zero: `np.zeros` for `H` and `b`. */
  method Zeros(n: nat) returns (h: array2<Matrix>, v: array<Matrix>)
    ensures fresh(h) && fresh(v) && h.Length0 == h.Length1 == v.Length == n
    ensures GridOf(h) == ZeroH(n) && v[..] == ZeroB(n)
  {
    h := new Matrix[n, n]((_, _) => Zero(6, 6));
    v := new Matrix[n](_ => Zero(6, 1));
    GridsEqual(GridOf(h), ZeroH(n), n);
  }

  /** The anchor `run` adds before solving: `H[0, 0] += I`, in place. */
  method Anchor(h: array2<Matrix>)
    requires h.Length0 == h.Length1 >= 1 && IsGrid(GridOf(h), h.Length0, h.Length0, 6, 6)
    modifies h
    ensures GridOf(h) == Anchored(old(GridOf(h)))
  {
    ghost var g := GridOf(h);
    h[0, 0] := Add(h[0, 0], Identity(6));
    GridsEqual(GridOf(h), Anchored(g), h.Length0);
  }

  /** The targets of one more edge: its own target appended. */
  lemma {:induction false} TargetListSnoc(zs: seq<Edge>, k: nat)
    requires k < |zs|
    ensures TargetList(zs[..k + 1]) == TargetList(zs[..k]) + [zs[k].z1]
  {
    var l, r := TargetList(zs[..k + 1]), TargetList(zs[..k]) + [zs[k].z1];
    assert forall i | 0 <= i < k + 1 :: l[i] == r[i];
  }

  class GraphSlam3 {
    /** Number of landmarks `n_l`; the window holds `2 + nL` nodes. */
    const nL: nat
    /** Marquardt damping `lambda`. */
    const lambda: real
    /** The pose algebra and linear-algebra routines the estimator calls. */
    const ops: Oracles
    /** `_nodes`: node id to pose estimate. */
    var nodes: Nodes
    /** `_H`: the window's information matrix, n-by-n blocks of 6x6. */
    var H: array2<Matrix>
    /** `_b`: the window's information vector, n blocks of 6x1. */
    var b: array<Matrix>

    /** The collaborators are well shaped and `H`, `b` form an n-node system. */
    ghost predicate Valid()
      reads this, H, b
    {
      ops.WellShaped() && H.Length0 == H.Length1 == b.Length && IsSystem(GridOf(H), b[..], b.Length)
    }

    /** The estimator's state as a value. */
    function Snap(): (s: Snapshot)
      reads this, H, b
      ensures s.nodes == nodes && |s.H| == H.Length0 && |s.b| == b.Length
    {
      Snapshot(nodes, GridOf(H), b[..])
    }

    /** `GraphSlam3(n_l, l)`: no nodes yet; the system is allocated by `Initialize`. */
    constructor (nL: nat, lambda: real, ops: Oracles)
      requires ops.WellShaped()
      ensures Valid() && fresh(H) && fresh(b)
      ensures this.nL == nL && this.lambda == lambda && this.ops == ops
      ensures nodes == map[] && H.Length0 == 0
    {
      this.nL := nL;
      this.lambda := lambda;
      this.ops := ops;
      nodes := map[];
      H := new Matrix[0, 0];
      b := new Matrix[0];
    }

    /** `initialize(x0)`: a fresh `(2 + nL)`-node system anchored at node 0, and node 0 estimated at `x0`. */
    method Initialize(x0: Pose)
      requires Valid()
      modifies this
      ensures Valid() && fresh(H) && fresh(b)
      ensures GridOf(H) == InitialH(2 + nL) && b[..] == ZeroB(2 + nL)
      ensures nodes == old(nodes)[0 := x0]
    {
      var n := 2 + nL;
      H := new Matrix[n, n]((_, _) => Zero(6, 6));
      b := new Matrix[n](_ => Zero(6, 1));
      H[0, 0] := Identity(6);
      nodes := nodes[0 := x0];
      GridsEqual(GridOf(H), InitialH(n), n);
      assert b[..] == ZeroB(n);
    }

    /** `initialize_n(x0s)`: every `(id, estimate)` pair stored in order; the system is untouched. */
    method InitializeN(x0s: seq<(nat, Pose)>)
      modifies this
      ensures nodes == Seeded(old(nodes), x0s)
      ensures H == old(H) && b == old(b)
    {
      for k := 0 to |x0s|
        invariant Seeded(nodes, x0s[k..]) == Seeded(old(nodes), x0s)
        invariant H == old(H) && b == old(b)
      {
        var (xi, x) := x0s[k];
        assert x0s[k..][1..] == x0s[k + 1..];
        nodes := nodes[xi := x];
      }
    }

    /** "Expand" (row and column 1 of `H` and entry 1 of `b` cleared), then the motion update of node 1 from node 0. */
    method Prepare(x: Option<Pose>)
      requires Valid() && H.Length0 >= 2 && (x.Some? ==> 0 in nodes)
      modifies this, H, b
      ensures Valid() && H == old(H) && b == old(b)
      ensures Snap() == Prepared(ops, old(Snap()), x)
    {
      ghost var s0 := Snap();
      var n := H.Length0;
      forall j | 0 <= j < n {
        H[1, j] := Zero(6, 6);
      }
      forall i | 0 <= i < n {
        H[i, 1] := Zero(6, 6);
      }
      b[1] := Zero(6, 1);
      GridsEqual(GridOf(H), Expanded(s0.H), n);
      assert b[..] == ExpandedB(s0.b);
      if x.Some? {
        nodes := nodes[1 := ops.xaddRel(nodes[0], x.value)];
      }
    }

    /** One observation of `step` on the system `h`, `v`: an unseen target is seeded from its source and skipped, a known one is accumulated. */
    method ObserveEdge(h: array2<Matrix>, v: array<Matrix>, e: Edge)
      requires h.Length0 == h.Length1 == v.Length && IsSystem(GridOf(h), v[..], v.Length)
      requires ops.WellShaped() && StepEdgeFits(nodes.Keys, e, v.Length)
      modifies this, h, v
      ensures H == old(H) && b == old(b)
      ensures Snapshot(nodes, GridOf(h), v[..]) == StepEdge(ops, Snapshot(old(nodes), old(GridOf(h)), old(v[..])), e)
    {
      if e.z1 !in nodes {
        nodes := nodes[e.z1 := ops.xaddRel(nodes[e.z0], e.z)];
        return;
      }
      var lin := AddEdge(ops, nodes, e.z, e.z0, e.z1);
      AccumulateInto(h, e.z0, e.z1, lin, e.o);
      AccumulateVec(v, e.z0, e.z1, lin, e.o);
    }

    /** One turn of `step`'s observation loop: edge `k` observed and its target listed. */
    method ObserveNext(h: array2<Matrix>, v: array<Matrix>, zs: seq<Edge>, k: nat, ts: seq<nat>) returns (ts': seq<nat>)
      requires k < |zs| && h.Length0 == h.Length1 == v.Length
      requires StepPassReady(ops, Snapshot(nodes, GridOf(h), v[..]), zs[k..]) && ts == TargetList(zs[..k])
      modifies this, h, v
      ensures H == old(H) && b == old(b)
      ensures StepPassReady(ops, Snapshot(nodes, GridOf(h), v[..]), zs[k + 1..]) && ts' == TargetList(zs[..k + 1])
      ensures StepPass(ops, Snapshot(nodes, GridOf(h), v[..]), zs[k + 1..]) == StepPass(ops, Snapshot(old(nodes), old(GridOf(h)), old(v[..])), zs[k..])
    {
      StepPassNext(ops, Snapshot(nodes, GridOf(h), v[..]), zs[k..]);
      assert zs[k..][1..] == zs[k + 1..];
      TargetListSnoc(zs, k);
      ts' := ts + [zs[k].z1];
      ObserveEdge(h, v, zs[k]);
    }

    /**
     `step`'s observation loop on the system `h`, `v`: each edge's target is
     listed (duplicates kept); an unseen target is seeded from its source and
     the edge is not accumulated, otherwise the edge is accumulated.
     */
    method Observe(h: array2<Matrix>, v: array<Matrix>, zs: seq<Edge>) returns (ts: seq<nat>)
      requires h.Length0 == h.Length1 == v.Length && IsSystem(GridOf(h), v[..], v.Length)
      requires ops.WellShaped() && StepFits(nodes.Keys, zs, v.Length)
      modifies this, h, v
      ensures H == old(H) && b == old(b)
      ensures Snapshot(nodes, GridOf(h), v[..]) == StepPass(ops, Snapshot(old(nodes), old(GridOf(h)), old(v[..])), zs)
      ensures ts == TargetList(zs)
    {
      ghost var s0 := Snapshot(nodes, GridOf(h), v[..]);
      ts := [];
      for k := 0 to |zs|
        invariant H == old(H) && b == old(b) && h.Length0 == v.Length
        invariant StepPassReady(ops, Snapshot(nodes, GridOf(h), v[..]), zs[k..]) && ts == TargetList(zs[..k])
        invariant StepPass(ops, Snapshot(nodes, GridOf(h), v[..]), zs[k..]) == StepPass(ops, s0, zs)
      {
        ts := ObserveNext(h, v, zs, k, ts);
      }
      assert zs[|zs|..] == [] && zs[..|zs|] == zs;
    }

    /** `step`'s corrections: each id on the update list, in order, moved by its row `dx[i - 1]` of the solution. */
    method Correct(zis: seq<nat>, dx: seq<seq<real>>)
      requires 0 < |dx| && forall k | 0 <= k < |zis| :: zis[k] in nodes && zis[k] <= |dx|
      modifies this
      ensures nodes == Corrected(ops, old(nodes), zis, dx)
      ensures H == old(H) && b == old(b)
    {
      for k := 0 to |zis|
        invariant nodes.Keys == old(nodes).Keys && H == old(H) && b == old(b)
        invariant Corrected(ops, nodes, zis[k..], dx) == Corrected(ops, old(nodes), zis, dx)
      {
        var i := zis[k];
        assert zis[k..][1..] == zis[k + 1..];
        nodes := nodes[i := ops.xaddAbs(nodes[i], dx[RowOf(i, |dx|)])];
      }
      assert zis[|zis|..] == [];
    }

    /** The reduced system written back: every slot other than 1 takes its reduced block, row and column 1 are kept. */
    method WriteBack(rh: Grid, rb: Grid)
      requires Valid() && H.Length0 >= 2
      requires IsGrid(rh, H.Length0 - 1, H.Length0 - 1, 6, 6) && IsGrid(rb, H.Length0 - 1, 1, 6, 1)
      modifies H, b
      ensures Valid()
      ensures GridOf(H) == WriteBackH(old(GridOf(H)), rh) && b[..] == WriteBackB(old(b[..]), rb)
    {
      ghost var h0, b0 := GridOf(H), b[..];
      var n := H.Length0;
      forall i, j | 0 <= i < n && 0 <= j < n && i != 1 && j != 1 {
        H[i, j] := rh[Reduced(i)][Reduced(j)];
      }
      forall i | 0 <= i < n && i != 1 {
        b[i] := rb[Reduced(i)][0];
      }
      GridsEqual(GridOf(H), WriteBackH(h0, rh), n);
      assert b[..] == WriteBackB(b0, rb);
    }

    /** The first half of `step`: expand, the motion update, and the observation loop, which lists the update ids. */
    method Gather(x: Option<Pose>, zs: seq<Edge>) returns (zis: seq<nat>)
      requires Valid() && StepReady(ops, Snap(), x, zs)
      modifies this, H, b
      ensures Valid() && H == old(H) && b == old(b)
      ensures Snap() == Observed(ops, old(Snap()), x, zs) && zis == Updates(x, zs)
    {
      Prepare(x);
      zis := if x.Some? then [1] else [];
      var ts := Observe(H, b, zs);
      zis := zis + ts;
    }

    /**
     The second half of `step`, after the reduction `red`: correct every
     node on the update list, replace node 0 by node 1, and write the reduced
     system back.
     */
    method Advance(red: Reduction, zis: seq<nat>)
      requires Valid() && H.Length0 >= 2 && 1 in nodes
      requires IsMatrix(red.H, (H.Length0 - 1) * 6, (H.Length0 - 1) * 6) && IsMatrix(red.B, (H.Length0 - 1) * 6, 1)
      requires IsMatrix(red.dx, H.Length0 - 1, 6)
      requires forall k | 0 <= k < |zis| :: zis[k] in nodes && zis[k] < H.Length0
      modifies this, H, b
      ensures Valid() && H == old(H) && b == old(b)
      ensures Snap() == Slide(ops, old(Snap()), red, zis)
    {
      var n := H.Length0;
      Correct(zis, red.dx);
      nodes := nodes[0 := nodes[1]];
      DivModOf(n - 1, 0, 6);
      var rh, rb := Unblock(red.H, 6, 6), Unblock(red.B, 6, 1);
      WriteBack(rh, rb);
    }

    /**
     `step(x, zs)`, the online update: expand and predict node 1, fold in the
     observations, marginalize node 0, correct every node on the update list,
     replace node 0 by node 1, write the reduced system back, and list the
     estimates by id.
     */
    method Step(x: Option<Pose>, zs: seq<Edge>) returns (xs: seq<Pose>)
      requires Valid() && StepReady(ops, Snap(), x, zs)
      modifies this, H, b
      ensures Valid() && H == old(H) && b == old(b)
      ensures Snap() == StepSpec(ops, lambda, old(Snap()), x, zs)
      ensures xs == Ordered(nodes)
    {
      ghost var s0 := Snap();
      var zis := Gather(x, zs);
      UpdatesKnown(ops, s0, x, zs);
      var red := Marginalize(ops, lambda, GridOf(H), b[..]);
      Advance(red, zis);
      xs := Ordered(nodes);
    }

    /** One edge of `run`: an unseen target is seeded from its source, and the edge is accumulated either way. */
    method RunEdgeInto(h: array2<Matrix>, v: array<Matrix>, e: Edge)
      requires h.Length0 == h.Length1 == v.Length && IsSystem(GridOf(h), v[..], v.Length)
      requires ops.WellShaped() && e.z0 in nodes && e.z0 < v.Length && e.z1 < v.Length && IsMatrix(e.o, 6, 6)
      modifies this, h, v
      ensures H == old(H) && b == old(b)
      ensures Snapshot(nodes, GridOf(h), v[..]) == RunEdge(ops, Snapshot(old(nodes), old(GridOf(h)), old(v[..])), e)
    {
      if e.z1 !in nodes {
        nodes := nodes[e.z1 := ops.xaddRel(nodes[e.z0], e.z)];
      }
      var lin := AddEdge(ops, nodes, e.z, e.z0, e.z1);
      AccumulateInto(h, e.z0, e.z1, lin, e.o);
      AccumulateVec(v, e.z0, e.z1, lin, e.o);
    }

    /** `run`'s edge loop over arrays `h`, `v`, seeding into the node map. */
    method RunEdges(h: array2<Matrix>, v: array<Matrix>, zs: seq<Edge>)
      requires h.Length0 == h.Length1 == v.Length && IsSystem(GridOf(h), v[..], v.Length)
      requires ops.WellShaped() && EdgesFit(zs, v.Length) && SourcesKnown(nodes.Keys, zs)
      modifies this, h, v
      ensures H == old(H) && b == old(b)
      ensures Snapshot(nodes, GridOf(h), v[..]) == RunPass(ops, Snapshot(old(nodes), old(GridOf(h)), old(v[..])), zs)
    {
      ghost var s0 := Snapshot(nodes, GridOf(h), v[..]);
      for k := 0 to |zs|
        invariant H == old(H) && b == old(b) && h.Length0 == v.Length
        invariant PassReady(ops, Snapshot(nodes, GridOf(h), v[..]), zs[k..])
        invariant RunPass(ops, Snapshot(nodes, GridOf(h), v[..]), zs[k..]) == RunPass(ops, s0, zs)
      {
        ghost var before := Snapshot(nodes, GridOf(h), v[..]);
        RunPassNext(ops, before, zs[k..]);
        assert zs[k..][1..] == zs[k + 1..];
        RunEdgeInto(h, v, zs[k]);
      }
      assert zs[|zs|..] == [];
    }

    /**
     One iteration's system, in fresh arrays: zero, every edge accumulated
     (an unseen target seeded from its source first), then `H[0, 0] += I`.
     */
    method Build(zs: seq<Edge>, n: nat) returns (h: array2<Matrix>, v: array<Matrix>)
      requires RunReady(ops, nodes.Keys, zs, n)
      modifies this
      ensures fresh(h) && fresh(v) && H == old(H) && b == old(b)
      ensures h.Length0 == h.Length1 == v.Length == n
      ensures Snapshot(nodes, GridOf(h), v[..]) == RunSystem(ops, old(nodes), zs, n)
    {
      h, v := Zeros(n);
      RunEdges(h, v, zs);
      Anchor(h);
    }

    /** `run`'s corrections: every node whose id is below `n` moved by row `id` of the solution. */
    method CorrectBelow(dx: seq<seq<real>>, n: nat)
      requires n <= |dx|
      modifies this
      ensures nodes == CorrectAll(ops, old(nodes), dx, n)
      ensures H == old(H) && b == old(b)
    {
      ghost var mid := nodes;
      assert nodes == CorrectAll(ops, mid, dx, 0);
      for i := 0 to n
        invariant nodes == CorrectAll(ops, mid, dx, i)
        invariant H == old(H) && b == old(b)
      {
        CorrectAllNext(ops, mid, dx, i);
        if i in nodes {
          nodes := nodes[i := ops.xaddAbs(nodes[i], dx[i])];
        }
      }
    }

    /** One iteration of `run`: build and solve the full system, correct every node below `n`, and report the mean-square correction. */
    method Iterate(zs: seq<Edge>, n: nat) returns (delta: real)
      requires RunReady(ops, nodes.Keys, zs, n)
      modifies this
      ensures nodes == RunSweep(ops, old(nodes), zs, n).nodes && delta == RunSweep(ops, old(nodes), zs, n).delta
      ensures H == old(H) && b == old(b)
    {
      var h, v := Build(zs, n);
      var sol := ops.lstsq(Block(GridOf(h), 6, 6), Neg(Block(AsColumn(v[..]), 6, 1)));
      DivModOf(n, 0, 6);
      var dx := Reshape(sol, 6);
      CorrectBelow(dx, n);
      delta := MeanSquare(dx, 6);
    }

    /**
     One turn of `run`'s loop with `left` iterations still allowed: one
     iteration, and whether its mean-square correction is below `tol`. When it
     is, the estimates are those `run` ends with; otherwise `run` goes on from
     them with one iteration fewer.
     */
    method RunOnce(zs: seq<Edge>, n: nat, left: nat, tol: real) returns (stop: bool)
      requires RunReady(ops, nodes.Keys, zs, n) && left > 0
      modifies this
      ensures RunReady(ops, nodes.Keys, zs, n)
      ensures stop ==> nodes == RunSpec(ops, old(nodes), zs, n, left, tol).nodes
      ensures !stop ==> RunSpec(ops, nodes, zs, n, Fewer(left), tol).nodes == RunSpec(ops, old(nodes), zs, n, left, tol).nodes
      ensures H == old(H) && b == old(b)
    {
      ghost var before := nodes;
      RunSweepReady(ops, nodes, zs, n);
      RunSpecStop(ops, nodes, zs, n, left, tol);
      var delta := Iterate(zs, n);
      stop := delta < tol;
      if !stop {
        RunSpecContinue(ops, before, zs, n, left, tol);
      }
    }

    /**
     `run(zs, max_nodes, n_iter, tol)`, the offline solver: up to `nIter`
     times, rebuild the whole system, solve it by least squares, correct
     every node below `maxNodes`, and stop once the mean square of the
     correction is below `tol`. The window's `H` and `b` are not touched.
     */
    method Run(zs: seq<Edge>, maxNodes: nat, nIter: nat, tol: real) returns (xs: seq<Pose>)
      requires nIter > 0 ==> RunReady(ops, nodes.Keys, zs, maxNodes)
      modifies this
      ensures nodes == RunSpec(ops, old(nodes), zs, maxNodes, nIter, tol).nodes
      ensures H == old(H) && b == old(b)
      ensures xs == Ordered(nodes)
    {
      var n := maxNodes;
      ghost var target := RunSpec(ops, nodes, zs, n, nIter, tol).nodes;
      var left := nIter;
      for it := 0 to nIter
        invariant left == nIter - it
        invariant left > 0 ==> RunReady(ops, nodes.Keys, zs, n)
        invariant RunSpec(ops, nodes, zs, n, left, tol).nodes == target
        invariant H == old(H) && b == old(b)
      {
        var stop := RunOnce(zs, n, left, tol);
        if stop {
          break;
        }
        left := Fewer(left);
      }
      xs := Ordered(nodes);
    }
  }
}
