/**
 Observations (edges) and the two ways the estimator folds a list of them
 into its node map and information system: `step` seeds an unseen target
 and skips that edge, `run` seeds it and then accumulates the edge anyway.
 */
module Edges {
  import opened Matrices
  import opened Blocks
  import opened Collaborators
  import opened InformationSystem
  import opened NodeMap

  /** An observation `(z0, z1, z, o)`: node `z1` seen from node `z0` at relative pose `z`, with weight `o`. */
  datatype Edge = Edge(z0: nat, z1: nat, z: Pose, o: Matrix)

  /** Estimates together with the information system they are linearized into. */
  datatype Snapshot = Snapshot(nodes: Nodes, H: Grid, b: seq<Matrix>)

  /** Every edge indexes the n-node system and carries a 6x6 weight. */
  predicate EdgesFit(zs: seq<Edge>, n: nat) {
    forall k | 0 <= k < |zs| :: zs[k].z0 < n && zs[k].z1 < n && IsMatrix(zs[k].o, 6, 6)
  }

  /** Every edge carries a symmetric weight. */
  predicate SymmetricWeights(zs: seq<Edge>) {
    forall k | 0 <= k < |zs| :: Symmetric(zs[k].o)
  }

  /** The edges after the first carry symmetric weights when all of them do. */
  lemma {:induction false} SymmetricWeightsTail(zs: seq<Edge>)
    requires |zs| > 0 && SymmetricWeights(zs)
    ensures Symmetric(zs[0].o) && SymmetricWeights(zs[1..])
  {
    assert forall k | 0 <= k < |zs| - 1 :: zs[1..][k] == zs[k + 1];
  }

  /** The edges' targets, in order, duplicates kept. */
  function TargetList(zs: seq<Edge>): (ts: seq<nat>)
    ensures |ts| == |zs| && forall k | 0 <= k < |zs| :: ts[k] == zs[k].z1
  {
    seq(|zs|, k requires 0 <= k < |zs| => zs[k].z1)
  }

  /** The set of the edges' targets. */
  function Targets(zs: seq<Edge>): (ts: set<nat>)
    ensures forall k | 0 <= k < |zs| :: zs[k].z1 in ts
    decreases |zs|
  {
    if |zs| == 0 then {} else {zs[0].z1} + Targets(zs[1..])
  }

  /** Every id in the set of targets is the target of some edge. */
  lemma {:induction false} TargetsListed(zs: seq<Edge>, t: nat)
    requires t in Targets(zs)
    ensures exists k :: 0 <= k < |zs| && zs[k].z1 == t
    decreases |zs|
  {
    if zs[0].z1 != t {
      TargetsListed(zs[1..], t);
      var k :| 0 <= k < |zs[1..]| && zs[1..][k].z1 == t;
      assert zs[k + 1].z1 == t;
    }
  }

  /**
   Processing the edges in order, each edge's source is already a node when
   the edge is reached (it was there at the start or is an earlier target);
   `step` and `run` look up `nodes[z0]` and fail when it is absent.
   */
  predicate SourcesKnown(keys: set<nat>, zs: seq<Edge>)
    decreases |zs|
  {
    |zs| == 0 || (zs[0].z0 in keys && SourcesKnown(keys + {zs[0].z1}, zs[1..]))
  }

  /** Knowing more nodes never makes an edge list unprocessable. */
  lemma {:induction false} SourcesKnownGrow(keys: set<nat>, more: set<nat>, zs: seq<Edge>)
    requires SourcesKnown(keys, zs) && keys <= more
    ensures SourcesKnown(more, zs)
    decreases |zs|
  {
    if |zs| > 0 {
      SourcesKnownGrow(keys + {zs[0].z1}, more + {zs[0].z1}, zs[1..]);
    }
  }

  /**
   What one observation of `step` needs when it is reached with the ids
   `keys`: its source is known and its target is a slot of the window (the
   target's row of the solution is read later). Only an edge whose target is
   already known is accumulated, so only then must its source index the
   system and its weight be 6x6.
   */
  predicate StepEdgeFits(keys: set<nat>, e: Edge, n: nat) {
    e.z0 in keys && e.z1 < n && (e.z1 in keys ==> e.z0 < n && IsMatrix(e.o, 6, 6))
  }

  /** What `step`'s observation loop needs: every edge fits when it is reached, the targets of earlier edges being known by then. */
  predicate StepFits(keys: set<nat>, zs: seq<Edge>, n: nat)
    decreases |zs|
  {
    |zs| == 0 || (StepEdgeFits(keys, zs[0], n) && StepFits(keys + {zs[0].z1}, zs[1..], n))
  }

  /** Every target of a list `step` can process is a slot of the window. */
  lemma {:induction false} StepFitsTargets(keys: set<nat>, zs: seq<Edge>, n: nat)
    requires StepFits(keys, zs, n)
    ensures forall k | 0 <= k < |zs| :: zs[k].z1 < n
    decreases |zs|
  {
    if |zs| > 0 {
      StepFitsTargets(keys + {zs[0].z1}, zs[1..], n);
      assert forall k | 0 < k < |zs| :: zs[k] == zs[1..][k - 1];
    }
  }

  /** `step` demands no more of its edges than `run` does. */
  lemma {:induction false} RunFitsStep(keys: set<nat>, zs: seq<Edge>, n: nat)
    requires EdgesFit(zs, n) && SourcesKnown(keys, zs)
    ensures StepFits(keys, zs, n)
    decreases |zs|
  {
    if |zs| > 0 {
      assert EdgesFit(zs[1..], n);
      RunFitsStep(keys + {zs[0].z1}, zs[1..], n);
    }
  }

  /**
   The converse fails: an observation that only seeds its target may come
   from a known node outside the window and carry any weight; `step` takes
   it, while `run` would index `H` with its source.
   */
  lemma {:induction false} SeedFromOutside(keys: set<nat>, e: Edge, n: nat)
    requires e.z0 in keys && n <= e.z0 && e.z1 < n && e.z1 !in keys
    ensures StepFits(keys, [e], n) && !EdgesFit([e], n)
  {
    assert [e][1..] == [];
    assert [e][0] == e;
  }

  /** `add_edge`: the Jacobians and residual of the edge `i0 -> i1` at the current estimates. */
  function AddEdge(ops: Oracles, nodes: Nodes, x: Pose, i0: nat, i1: nat): (lin: Linearization)
    requires ops.WellShaped() && i0 in nodes && i1 in nodes
    ensures Shaped(lin)
    ensures lin == ops.linearize(nodes[i0], nodes[i1], x)
  {
    ops.linearize(nodes[i0], nodes[i1], x)
  }

  /** The whole contribution of edge `e`, linearized at `nodes`, to the system. */
  function Accumulate(ops: Oracles, s: Snapshot, nodes: Nodes, e: Edge): (r: Snapshot)
    requires ops.WellShaped() && IsSystem(s.H, s.b, |s.H|) && e.z0 < |s.H| && e.z1 < |s.H| && IsMatrix(e.o, 6, 6)
    requires e.z0 in nodes && e.z1 in nodes
    ensures IsSystem(r.H, r.b, |s.H|) && r.nodes == nodes
  {
    var lin := AddEdge(ops, nodes, e.z, e.z0, e.z1);
    Snapshot(nodes, AccumulateH(s.H, e.z0, e.z1, lin, e.o), AccumulateB(s.b, e.z0, e.z1, lin, e.o))
  }

  /** `xadd_rel` from the source's estimate: the initial guess for an unseen target. */
  function Seed(ops: Oracles, nodes: Nodes, e: Edge): (r: Nodes)
    requires e.z0 in nodes
    ensures r.Keys == nodes.Keys + {e.z1}
    ensures forall k | k in nodes && k != e.z1 :: r[k] == nodes[k]
  {
    nodes[e.z1 := ops.xaddRel(nodes[e.z0], e.z)]
  }

  /** One edge of `step`: an unseen target is seeded and the edge contributes nothing; otherwise it is accumulated. */
  function StepEdge(ops: Oracles, s: Snapshot, e: Edge): (r: Snapshot)
    requires ops.WellShaped() && IsSystem(s.H, s.b, |s.H|) && StepEdgeFits(s.nodes.Keys, e, |s.H|)
    ensures IsSystem(r.H, r.b, |s.H|)
    ensures r.nodes.Keys == s.nodes.Keys + {e.z1}
    ensures forall k | k in s.nodes :: r.nodes[k] == s.nodes[k]
  {
    if e.z1 !in s.nodes then s.(nodes := Seed(ops, s.nodes, e))
    else
      assert s.nodes.Keys + {e.z1} == s.nodes.Keys;
      Accumulate(ops, s, s.nodes, e)
  }

  /** One edge of `run`: an unseen target is seeded, and the edge is then accumulated either way. */
  function RunEdge(ops: Oracles, s: Snapshot, e: Edge): (r: Snapshot)
    requires ops.WellShaped() && IsSystem(s.H, s.b, |s.H|) && e.z0 < |s.H| && e.z1 < |s.H| && IsMatrix(e.o, 6, 6)
    requires e.z0 in s.nodes
    ensures IsSystem(r.H, r.b, |s.H|)
    ensures r.nodes.Keys == s.nodes.Keys + {e.z1}
    ensures forall k | k in s.nodes :: r.nodes[k] == s.nodes[k]
  {
    var nodes := if e.z1 !in s.nodes then Seed(ops, s.nodes, e) else s.nodes;
    assert nodes.Keys == s.nodes.Keys + {e.z1};
    Accumulate(ops, s, nodes, e)
  }

  /**
   The two folds disagree exactly on a freshly seeded edge: both seed the
   same guess, `step` leaves the system alone and `run` accumulates the edge
   at the guess. On an edge whose target is known they agree.
   */
  lemma {:induction false} SeedingContrast(ops: Oracles, s: Snapshot, e: Edge)
    requires ops.WellShaped() && IsSystem(s.H, s.b, |s.H|) && e.z0 < |s.H| && e.z1 < |s.H| && IsMatrix(e.o, 6, 6)
    requires e.z0 in s.nodes
    ensures e.z1 !in s.nodes ==> StepEdge(ops, s, e).nodes == RunEdge(ops, s, e).nodes == Seed(ops, s.nodes, e)
    ensures e.z1 !in s.nodes ==> StepEdge(ops, s, e).H == s.H && StepEdge(ops, s, e).b == s.b
    ensures e.z1 !in s.nodes ==> RunEdge(ops, s, e) == Accumulate(ops, s, Seed(ops, s.nodes, e), e)
    ensures e.z1 in s.nodes ==> StepEdge(ops, s, e) == RunEdge(ops, s, e) == Accumulate(ops, s, s.nodes, e)
  {
  }

  /** What `run`'s fold over `zs` needs from state `s`: shapes, edges inside the window, sources known when reached. */
  ghost predicate PassReady(ops: Oracles, s: Snapshot, zs: seq<Edge>) {
    ops.WellShaped() && IsSystem(s.H, s.b, |s.H|) && EdgesFit(zs, |s.H|) && SourcesKnown(s.nodes.Keys, zs)
  }

  /** What `step`'s fold over `zs` needs from state `s`: shapes, and every edge fitting when it is reached. */
  ghost predicate StepPassReady(ops: Oracles, s: Snapshot, zs: seq<Edge>) {
    ops.WellShaped() && IsSystem(s.H, s.b, |s.H|) && StepFits(s.nodes.Keys, zs, |s.H|)
  }

  /** After `step` takes the first edge, the rest of the list is ready, and the fold goes on from there. */
  lemma {:induction false} StepPassNext(ops: Oracles, s: Snapshot, zs: seq<Edge>)
    requires StepPassReady(ops, s, zs) && |zs| > 0
    ensures StepPassReady(ops, StepEdge(ops, s, zs[0]), zs[1..])
    ensures StepPass(ops, s, zs) == StepPass(ops, StepEdge(ops, s, zs[0]), zs[1..])
  {
  }

  /** After `run` takes the first edge, the rest of the list is ready, and the fold goes on from there. */
  lemma {:induction false} RunPassNext(ops: Oracles, s: Snapshot, zs: seq<Edge>)
    requires PassReady(ops, s, zs) && |zs| > 0
    ensures PassReady(ops, RunEdge(ops, s, zs[0]), zs[1..])
    ensures RunPass(ops, s, zs) == RunPass(ops, RunEdge(ops, s, zs[0]), zs[1..])
  {
  }

  /** Adding the first target and then the rest adds all targets. */
  lemma {:induction false} TargetsCons(keys: set<nat>, zs: seq<Edge>)
    requires |zs| > 0
    ensures (keys + {zs[0].z1}) + Targets(zs[1..]) == keys + Targets(zs)
  {
  }

  /** `step`'s observation loop over `zs`. */
  function StepPass(ops: Oracles, s: Snapshot, zs: seq<Edge>): (r: Snapshot)
    requires ops.WellShaped() && IsSystem(s.H, s.b, |s.H|) && StepFits(s.nodes.Keys, zs, |s.H|)
    ensures IsSystem(r.H, r.b, |s.H|)
    ensures r.nodes.Keys == s.nodes.Keys + Targets(zs)
    ensures forall k | k in s.nodes :: r.nodes[k] == s.nodes[k]
    decreases |zs|
  {
    if |zs| == 0 then s
    else
      var s' := StepEdge(ops, s, zs[0]);
      var r := StepPass(ops, s', zs[1..]);
      TargetsCons(s.nodes.Keys, zs);
      assert forall k | k in s.nodes :: r.nodes[k] == s'.nodes[k];
      r
  }

  /** `run`'s edge loop over `zs`. */
  function RunPass(ops: Oracles, s: Snapshot, zs: seq<Edge>): (r: Snapshot)
    requires ops.WellShaped() && IsSystem(s.H, s.b, |s.H|) && EdgesFit(zs, |s.H|) && SourcesKnown(s.nodes.Keys, zs)
    ensures IsSystem(r.H, r.b, |s.H|)
    ensures r.nodes.Keys == s.nodes.Keys + Targets(zs)
    ensures forall k | k in s.nodes :: r.nodes[k] == s.nodes[k]
    decreases |zs|
  {
    if |zs| == 0 then s
    else
      var s' := RunEdge(ops, s, zs[0]);
      assert EdgesFit(zs[1..], |s'.H|);
      assert SourcesKnown(s'.nodes.Keys, zs[1..]);
      var r := RunPass(ops, s', zs[1..]);
      TargetsCons(s.nodes.Keys, zs);
      assert forall k | k in s.nodes :: r.nodes[k] == s'.nodes[k];
      r
  }

  /** What one edge of `step` does to `H`: the edge's contribution when its target is known, nothing otherwise. */
  lemma {:induction false} StepEdgeH(ops: Oracles, s: Snapshot, e: Edge)
    requires ops.WellShaped() && IsSystem(s.H, s.b, |s.H|) && StepEdgeFits(s.nodes.Keys, e, |s.H|)
    ensures e.z1 in s.nodes ==> StepEdge(ops, s, e).H == AccumulateH(s.H, e.z0, e.z1, AddEdge(ops, s.nodes, e.z, e.z0, e.z1), e.o)
    ensures e.z1 !in s.nodes ==> StepEdge(ops, s, e).H == s.H
  {
  }

  /** What one edge of `run` does to `H`: the edge's contribution, linearized at the estimates after seeding. */
  lemma {:induction false} RunEdgeH(ops: Oracles, s: Snapshot, e: Edge)
    requires ops.WellShaped() && IsSystem(s.H, s.b, |s.H|) && e.z0 < |s.H| && e.z1 < |s.H| && IsMatrix(e.o, 6, 6)
    requires e.z0 in s.nodes
    ensures var r := RunEdge(ops, s, e);
      r.H == AccumulateH(s.H, e.z0, e.z1, AddEdge(ops, r.nodes, e.z, e.z0, e.z1), e.o)
  {
  }

  /** With a symmetric weight, one edge of `step` keeps `H` symmetric. */
  lemma {:induction false} StepEdgeSymmetric(ops: Oracles, s: Snapshot, e: Edge)
    requires ops.WellShaped() && IsSystem(s.H, s.b, |s.H|) && StepEdgeFits(s.nodes.Keys, e, |s.H|)
    requires SymmetricGrid(s.H) && Symmetric(e.o)
    ensures SymmetricGrid(StepEdge(ops, s, e).H)
  {
    StepEdgeH(ops, s, e);
    if e.z1 in s.nodes {
      AccumulateSymmetric(s.H, e.z0, e.z1, AddEdge(ops, s.nodes, e.z, e.z0, e.z1), e.o);
    }
  }

  /** With a symmetric weight, one edge of `run` keeps `H` symmetric. */
  lemma {:induction false} RunEdgeSymmetric(ops: Oracles, s: Snapshot, e: Edge)
    requires ops.WellShaped() && IsSystem(s.H, s.b, |s.H|) && e.z0 < |s.H| && e.z1 < |s.H| && IsMatrix(e.o, 6, 6)
    requires e.z0 in s.nodes && SymmetricGrid(s.H) && Symmetric(e.o)
    ensures SymmetricGrid(RunEdge(ops, s, e).H)
  {
    RunEdgeH(ops, s, e);
    AccumulateSymmetric(s.H, e.z0, e.z1, AddEdge(ops, RunEdge(ops, s, e).nodes, e.z, e.z0, e.z1), e.o);
  }

  /** With symmetric weights, `step`'s observation loop keeps `H` symmetric. */
  lemma {:induction false} StepPassSymmetric(ops: Oracles, s: Snapshot, zs: seq<Edge>)
    requires StepPassReady(ops, s, zs) && SymmetricGrid(s.H) && SymmetricWeights(zs)
    ensures SymmetricGrid(StepPass(ops, s, zs).H)
    decreases |zs|
  {
    if |zs| > 0 {
      SymmetricWeightsTail(zs);
      StepEdgeSymmetric(ops, s, zs[0]);
      StepPassNext(ops, s, zs);
      StepPassSymmetric(ops, StepEdge(ops, s, zs[0]), zs[1..]);
    }
  }

  /** With symmetric weights, `run`'s edge loop keeps `H` symmetric. */
  lemma {:induction false} RunPassSymmetric(ops: Oracles, s: Snapshot, zs: seq<Edge>)
    requires PassReady(ops, s, zs) && SymmetricGrid(s.H) && SymmetricWeights(zs)
    ensures SymmetricGrid(RunPass(ops, s, zs).H)
    decreases |zs|
  {
    if |zs| > 0 {
      SymmetricWeightsTail(zs);
      RunEdgeSymmetric(ops, s, zs[0]);
      RunPassNext(ops, s, zs);
      RunPassSymmetric(ops, RunEdge(ops, s, zs[0]), zs[1..]);
    }
  }
}
