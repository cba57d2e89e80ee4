# GraphSlam3 — a verified model of a 3D pose-graph SLAM back-end

`slam.py` implements `GraphSlam3`. It is a Gauss-Newton / Levenberg-Marquardt
back-end for 3D pose-graph SLAM. It keeps a dictionary of node estimates
(node 0 is the previous pose, node 1 the current pose, nodes 2.. the
landmarks). In its online mode it also keeps a sliding-window information
system: `H` is an n-by-n array of 6x6 blocks and `b` is n blocks of 6x1.
The class has four operations:

- `initialize` allocates the window, anchored at node 0.
- `initialize_n` seeds estimates.
- `step` is one online update:
  - clear row and column 1;
  - predict node 1 from the motion;
  - fold in the observations, seeding unseen targets instead of accumulating them;
  - marginalize node 0 with a Schur complement;
  - solve with Marquardt damping and correct every node on the update list;
  - replace node 0 by node 1;
  - write the reduced system back.
- `run` is the offline solver. Each iteration rebuilds the full system from
  zero, anchors it with `H[0,0] += I`, solves it by least squares, corrects
  every node below `max_nodes`, and stops early once the mean square of the
  correction is below `tol`.

The model has these modules:

- `Matrices`: dense matrices over `real`, with the algebra the symmetry proofs need.
- `Blocks`: `block`/`unblock` between block arrays and dense matrices, with both round trips.
- `Collaborators`: the pose algebra and the linear-algebra routines, as parameters.
- `InformationSystem`: each in-place update of `H` and `b` as a function, and, for each update of `H`, a proof that it keeps `H` symmetric.
- `NodeMap`: seeding, corrections, and listing the estimates by id.
- `Edges`: one edge and a whole edge list, as `step` and as `run` process them.
- `Estimator`: the whole of `step` and of `run` as functions of the state before them, and the properties proved about them.
- `Slam`: the class `GraphSlam3`, whose fields are updated in place.
  - Its fields are `nodes` (a `map`), `H` (an `array2` of blocks) and `b` (an `array` of blocks).
  - Every method is proved to leave exactly the state that the specification functions of the other modules describe.

## Model

| member | source | states |
|---|---|---|
| `Blocks.Block` | slam.py:9-12 | `block` of an `ni`-by-`nj` array of `nk`-by-`nl` blocks is a dense `ni*nk`-by-`nj*nl` matrix (its cells are given by `BlockAt`) |
| `Blocks.BlockAt` | slam.py:9-12 | entry `(i*nk + k, j*nl + l)` of `block(g)` is `g[i][j][k][l]`, for every in-range block and offset |
| `Blocks.Unblock` | slam.py:14-20 | for a matrix whose sides are multiples of the block shape, `unblock` gives an array of shape `(rows/nk, cols/nl, nk, nl)` (its cells are given by `UnblockAt`) |
| `Blocks.UnblockAt` | slam.py:14-20 | entry `[i][j][k][l]` of `unblock(d)` is `d[i*nk + k][j*nl + l]` |
| `Blocks.UnblockBlock` | slam.py:9-20 | round trip: `unblock(block(g)) == g` for every block array |
| `Blocks.BlockUnblock` | slam.py:9-20 | round trip: `block(unblock(d)) == d` for every matrix whose sides are multiples of the block size |
| `Blocks.SubGrid` | slam.py:96-102 | the slice `H[r0:r1, c0:c1]` has `r1-r0` rows of `c1-c0` blocks, and its block `(i,j)` is `H[r0+i, c0+j]` |
| `Blocks.SubGridShape` | slam.py:96-102 | a slice `H[r0:r1, c0:c1]` of a block array is a block array with the same block shape |
| `InformationSystem.InitialH` | slam.py:37-40 | the initial `H` is an `n`-by-`n` array of 6x6 blocks, the identity at `(0,0)` and zero everywhere else |
| `InformationSystem.InitialSymmetric` | slam.py:37-40 | the initial system (`H[0,0] = I`, every other block zero) is symmetric |
| `InformationSystem.Expanded` | slam.py:60-61 | "expand" keeps `H`'s shape, zeroes every block in row or column 1 and keeps every other block |
| `InformationSystem.ExpandedB` | slam.py:62 | "expand" keeps `b`'s length, zeroes `b[1]` and keeps every other entry |
| `InformationSystem.ExpandedSymmetric` | slam.py:60-61 | clearing row and column 1 keeps `H` symmetric |
| `InformationSystem.AccumulateH` | slam.py:89-92 | one edge changes no block of `H` outside the four blocks `(z0|z1, z0|z1)` |
| `InformationSystem.AccumulateBlocks` | slam.py:89-92 | for `z0 != z1` each of the four blocks gains its own term (`AᵀoA`, `AᵀoB`, `BᵀoA`, `BᵀoB`); for a self-edge the one block gains all four, in the source's order |
| `InformationSystem.AccumulateB` | slam.py:93-94 | one edge changes no entry of `b` other than `b[z0]` and `b[z1]` |
| `InformationSystem.AccumulateEntries` | slam.py:93-94 | `b[z0]` gains `Aᵀoe` and `b[z1]` gains `Bᵀoe`; a self-edge gains both |
| `InformationSystem.AccumulateSymmetric` | slam.py:89-92 | with a symmetric weight `o`, one edge's update keeps `H` symmetric (`H[i,j] == H[j,i]ᵀ`) |
| `InformationSystem.Anchored` | slam.py:172 | the anchor adds `I` to block `(0,0)` and changes no other block |
| `InformationSystem.AnchoredSymmetric` | slam.py:172 | the anchor keeps `H` symmetric |
| `InformationSystem.Reduced` | slam.py:139-144 | the reduced index a slot other than 1 reads from is the one the write-back sends to that slot (`Slot(Reduced(i)) == i`) |
| `InformationSystem.WriteBackH` | slam.py:139-142 | reduced block `(p,q)` lands in slot `(Slot(p), Slot(q))` (0 stays 0, `r >= 1` goes to `r + 1`); row and column 1 keep what they held |
| `InformationSystem.WriteBackSymmetric` | slam.py:139-142 | writing back a symmetric reduced matrix keeps a symmetric `H` symmetric |
| `InformationSystem.WriteBackB` | slam.py:143-144 | reduced entry `p` lands in slot `Slot(p)`; `b[1]` keeps what it held |
| `NodeMap.Seeded` | slam.py:49-50 | after `initialize_n` the ids are the old ids plus every listed id |
| `NodeMap.SeededLast` | slam.py:49-50 | an id listed more than once ends with the estimate of its last pair |
| `NodeMap.SeededUntouched` | slam.py:49-50 | an id no pair names keeps its estimate |
| `NodeMap.RowOf` | slam.py:118 | node `i` reads solution row `(i - 1) mod rows`: Python's `dx[-1]` is the last row when `i == 0` |
| `NodeMap.Corrected` | slam.py:117-118 | the correction loop of `step` keeps the set of ids |
| `NodeMap.CorrectedAt` | slam.py:117-118 | an id listed `c` times on the update list is corrected `c` times by its row; an id not listed is unchanged |
| `NodeMap.CorrectAll` | slam.py:186-188 | the correction loop of `run` keeps the set of ids |
| `NodeMap.SortedKeys` | slam.py:146 | `sorted(keys)` lists every id exactly once, in strictly increasing order |
| `NodeMap.Ordered` | slam.py:146-147 | the returned list has one estimate per node, and entry `i` is the estimate of the `i`-th smallest id |
| `Edges.TargetList` | slam.py:80 | the update list gets every edge's target, in order, duplicates kept |
| `Edges.StepFitsTargets` | slam.py:117-118 | every target of an observation list `step` can process is a slot of the window, so its row `dx[i-1]` exists |
| `Edges.RunFitsStep` | slam.py:79-94 | `step` demands no more of its observations than `run` demands of its edges |
| `Edges.SeedFromOutside` | slam.py:81-87 | an observation that only seeds its target may come from a known node outside the window and carry any weight: `step` accepts it, `run`'s requirements do not |
| `Edges.AddEdge` | slam.py:28-34 | `add_edge` linearizes the edge at the current estimates of its two ends, with 6x6 Jacobians and a 6x1 residual |
| `Edges.Accumulate` | slam.py:88-94 | one edge's contribution keeps the system's shape and leaves the estimates it was linearized at unchanged (which blocks it changes, and by what, is stated by `AccumulateH`/`AccumulateB`) |
| `Edges.Seed` | slam.py:81-84 | an unseen target is added, guessed from its source; no other estimate changes |
| `Edges.StepEdge` | slam.py:79-94 | one observation of `step` adds its target to the ids and changes no known estimate |
| `Edges.RunEdge` | slam.py:158-169 | one edge of `run` adds its target to the ids and changes no known estimate |
| `Edges.SeedingContrast` | slam.py:81-87 | on an unseen target both loops seed the same guess, but `step` leaves `H` and `b` alone while `run` accumulates the edge at the guess; on a known target they agree |
| `Edges.StepPass` | slam.py:79-94 | the observation loop keeps the system's shape, adds exactly the targets to the ids, and changes no estimate that was known before |
| `Edges.RunPass` | slam.py:158-169 | `run`'s edge loop keeps the system's shape, adds exactly the targets to the ids, and changes no estimate that was known before |
| `Edges.StepEdgeSymmetric` | slam.py:81-92 | one observed edge with a symmetric weight keeps `H` symmetric: its four Gram blocks come in transposed pairs |
| `Edges.StepPassSymmetric` | slam.py:79-94 | with symmetric weights the observation loop keeps `H` symmetric |
| `Edges.RunEdgeSymmetric` | slam.py:159-167 | one edge of `run` with a symmetric weight keeps `H` symmetric |
| `Edges.RunPassSymmetric` | slam.py:158-169 | with symmetric weights `run`'s edge loop keeps `H` symmetric |
| `Estimator.ReshapeAt` | slam.py:115 | `reshape(dx, [-1, 6])` is row-major: entry `k` of the column is entry `k % 6` of row `k / 6` |
| `Estimator.Reshape` | slam.py:115 | `reshape(dx, [-1, 6])` turns a column of `6m` entries into `m` rows of 6 (its cells are given by `ReshapeAt`) |
| `Estimator.MeanSquare` | slam.py:191 | the mean square of the correction is never negative, and it is zero for a zero correction |
| `Estimator.Tile` | slam.py:96-99 | `block(H[r0:r1, c0:c1])` is a `6(r1-r0)`-by-`6(c1-c0)` matrix |
| `Estimator.TileB` | slam.py:101-102 | `block(b[r0:r1, :1])` is a `6(r1-r0)`-by-1 column |
| `Estimator.TileBAt` | slam.py:101-102 | that column holds entry `k` of `b[i]` at row `6(i-r0) + k` |
| `Estimator.Marginalize` | slam.py:96-115 | the reduced `H` is `6(n-1)`-square, the reduced `B` is `6(n-1)`-by-1, and the solution has `n-1` rows of 6 |
| `Estimator.PartitionAt` | slam.py:96-99 | the partition is exact: `H11` holds block `(i,j)`, for `i, j >= 1`, at offset `(6(i-1), 6(j-1))`, and `H00` is `H[0,0]` |
| `Estimator.LowerColumnZero` | slam.py:98 | if `H[j,0]` is zero for every `j >= 1`, then `H10` is zero |
| `Estimator.MarginalizeUncoupled` | slam.py:104-110 | when no other node is coupled to node 0, the Schur complement leaves `H11` and `B10` unchanged |
| `Estimator.Moved` | slam.py:67-68 | the motion update adds node 1 and changes no other estimate; with no motion nothing changes |
| `Estimator.Updates` | slam.py:64-80 | the update list is `[1]` (with a motion) followed by every observation's target, in order |
| `Estimator.UpdatesFrom` | slam.py:64-80 | an id is on the update list exactly when it is node 1 of a motion update or the target of some observation |
| `Estimator.Prepared` | slam.py:59-69 | after expanding and the motion update, the system keeps its shape and the ids are those of the motion update |
| `Estimator.Observed` | slam.py:79-94 | after the observation loop, the ids are the moved ids plus every target, and every moved estimate is unchanged |
| `Estimator.UpdatesKnown` | slam.py:117-118 | every id on the update list names a known node and a slot of the window, so the correction loop never fails a lookup |
| `Estimator.Slide` | slam.py:117-144 | after the corrections, the replacement of node 0 and the write-back, node 0 is present and equals node 1 |
| `Estimator.StepSpec` | slam.py:56-147 | after a step the system keeps its shape, the ids are the old ids plus node 1 (with a motion), every target and node 0, and node 0 equals node 1 |
| `Estimator.StepNodes` | slam.py:117-133 | after a step, a node other than 0 on the update list is its observed estimate corrected once per occurrence by solution row `RowOf(k)`; a known node off the list keeps its estimate |
| `Estimator.StepIdle` | slam.py:56-147 | a step with no motion and no observations, on a window whose two poses agree, changes no estimate |
| `Estimator.ObservedSymmetric` | slam.py:59-94 | with symmetric weights, the system a step marginalizes is symmetric whenever the window was |
| `Estimator.Source` | slam.py:139-142 | the node whose blocks slot `i` (other than 1) holds after the slide is one past the reduced index the slot is written from, since the reduced system starts at node 1 |
| `Estimator.WriteBackShifts` | slam.py:139-142 | writing back the lower-right part of `H` itself moves node 1's blocks into slot 0 and keeps row and column 1 |
| `Estimator.StepSlides` | slam.py:96-144 | when no other node is coupled to node 0, a step slides the window: block `(i,j)` becomes block `(Source(i), Source(j))`, and row and column 1 keep what the observations put there |
| `Estimator.RunSystem` | slam.py:155-172 | the system one iteration solves has n nodes, and its ids are the old ids plus every target; no estimate known before changes |
| `Estimator.RunSystemSymmetric` | slam.py:155-172 | with symmetric weights, every system `run` solves is symmetric |
| `Estimator.RunSweep` | slam.py:173-191 | one iteration gives an n-by-6 correction, a non-negative mean square, and estimates for the old ids plus every target |
| `Estimator.RunSpec` | slam.py:154-195 | `run` performs at most `n_iter` iterations; every iteration before the last has mean square `>= tol`; stopping early happens only below `tol`; with zero iterations nothing changes, whatever `zs` and `max_nodes` are |
| `Estimator.RunSpecStop` | slam.py:194-195 | when the first iteration's mean square is below `tol`, `run` ends with that iteration's estimates |
| `Estimator.RunSpecContinue` | slam.py:154-195 | otherwise `run` goes on from that iteration's estimates with one iteration fewer |
| `Estimator.RunNoEarlyExit` | slam.py:154-195 | with `tol <= 0` no iteration stops early, so all `n_iter` iterations are performed |
| `Slam.AddBlock` | slam.py:89 | `H[i,j] += m` in place changes block `(i,j)` alone |
| `Slam.AccumulateInto` | slam.py:89-92 | the four in-place block updates leave `H` as `AccumulateH` describes |
| `Slam.AccumulateVec` | slam.py:93-94 | the two in-place updates leave `b` as `AccumulateB` describes |
| `Slam.Zeros` | slam.py:155-156 | `np.zeros` gives fresh all-zero `H` and `b` |
| `Slam.Anchor` | slam.py:172 | the in-place anchor leaves `H` as `Anchored` describes |
| `Slam.GraphSlam3.constructor` | slam.py:23-26 | a new estimator stores `n_l` and `lambda` and has no nodes |
| `Slam.GraphSlam3.Initialize` | slam.py:36-41 | `initialize` allocates fresh `(2+n_l)`-node `H` (identity at `(0,0)`, zero elsewhere) and zero `b`, and sets node 0 to `x0`, keeping the other estimates |
| `Slam.GraphSlam3.InitializeN` | slam.py:47-50 | `initialize_n` stores every pair in order, as `Seeded` describes, and leaves `H` and `b` alone |
| `Slam.GraphSlam3.Prepare` | slam.py:59-69 | expanding and the motion update, in place, leave exactly the state `Prepared` describes |
| `Slam.GraphSlam3.ObserveEdge` | slam.py:80-94 | one observation, in place, leaves exactly the state `StepEdge` describes |
| `Slam.GraphSlam3.Observe` | slam.py:79-94 | the observation loop, in place, leaves exactly the state `StepPass` describes and lists the targets in order |
| `Slam.GraphSlam3.Correct` | slam.py:117-118 | the correction loop, in place, leaves exactly the estimates `Corrected` describes |
| `Slam.GraphSlam3.WriteBack` | slam.py:135-144 | the in-place write-back leaves `H` and `b` as `WriteBackH` and `WriteBackB` describe |
| `Slam.GraphSlam3.Gather` | slam.py:59-94 | the first half of `step` leaves exactly the state `Observed` describes and builds the update list `Updates` |
| `Slam.GraphSlam3.Advance` | slam.py:117-144 | the second half of `step` leaves exactly the state `Slide` describes |
| `Slam.GraphSlam3.Step` | slam.py:56-147 | `step` leaves exactly the state `StepSpec` describes, keeps the arrays in place, and returns the estimates in id order |
| `Slam.GraphSlam3.RunEdgeInto` | slam.py:158-169 | one edge of `run`, in place, leaves exactly the state `RunEdge` describes |
| `Slam.GraphSlam3.RunEdges` | slam.py:158-169 | `run`'s edge loop, in place, leaves exactly the state `RunPass` describes |
| `Slam.GraphSlam3.Build` | slam.py:155-172 | one iteration's fresh system equals `RunSystem`, and the window's `H` and `b` are untouched |
| `Slam.GraphSlam3.CorrectBelow` | slam.py:186-188 | `run`'s correction loop leaves exactly the estimates `CorrectAll` describes |
| `Slam.GraphSlam3.Iterate` | slam.py:155-191 | one iteration leaves the estimates, and gives the mean square, that `RunSweep` describes |
| `Slam.GraphSlam3.RunOnce` | slam.py:155-195 | one iteration of `run`: when its mean-square correction is below `tol` the estimates are those `RunSpec` ends with; otherwise `RunSpec` with one iteration fewer from the new estimates ends where the whole run would |
| `Slam.GraphSlam3.Run` | slam.py:149-198 | `run` leaves exactly the estimates `RunSpec` describes, leaves the window's `H` and `b` alone, and returns the estimates in id order; with `n_iter == 0` it accepts any `zs` and `max_nodes` |

## Left out

- The pose algebra and the solvers are parameters of the model (fields of `Oracles`). This covers `qmath_np` (`x2pq`, `Aij_Bij_eij`, `xadd_rel`, `xadd_abs`) and numpy's `pinv` and `lstsq`. They are foreign code. The model assumes only the shapes they return.
- Floating point: all arithmetic is exact `real` arithmetic.
- Convergence of `run`, and the numerical quality of either solve, are not claimed.
- The `ox` argument of `step` is never read by the source, so `Step` does not take it.
- The `zs=None` default of `step` makes the source fail when it iterates `None`. `Step` takes a sequence; an empty one means no observations.
- The `debug` flag of `run` and its `print` are output only. They are not modelled.
- The defaults `n_iter=10` and `tol=1e-4` of `run` and `l=0.0` of the constructor are not modelled; callers pass them.
- `nIter` is a `nat`. Python also accepts a negative `n_iter`, for which `range(n_iter)` is empty and `run` performs no iteration. The model covers that behaviour only through `nIter == 0`, which accepts any `zs` and `max_nodes`, as the source does.
- Commented-out code is not modelled: `initialize` lines 42-45, the odometry-edge idea at 70-72, the undamped solve at 113, the alternative updates at 120-130, and the damping in `run` at 178-180.
- Lookups and indexing that would raise in the source are preconditions.
  - `StepReady` requires node 0 when there is a motion, every edge's source known when that edge is reached, and node 1 present by the time node 0 is replaced.
  - `StepReady` requires every target to be a slot of the window, since its row `dx[i-1]` is read at line 118. It requires the source to be a slot, and the weight to be 6x6, only for an edge whose target is already known, the only kind `step` accumulates (`StepFits`). A window of at least two nodes is required too. A step before `initialize` has no `H` and fails in the source.
  - `RunReady` lists what `run` needs once it performs an iteration; `Run` and `RunSpec` require it only when `n_iter > 0`, since with no iteration the source reads neither `zs` nor `max_nodes`. It requires `WellShaped` oracles and `max_nodes >= 1` for the anchor at line 172. It requires `EdgesFit`: both ids of every edge below `max_nodes` and a 6x6 weight, whether or not the target is new, since `run` accumulates every edge (lines 163-169). It also requires `SourcesKnown`: every source known when its edge is reached. This is more than `step` demands, as `Edges.RunFitsStep` and `Edges.SeedFromOutside` show.
  - `dx[i]` in `run` never fails, because the solution of an n-node system has n rows.
- `unblock` divides with Python 2's `/`, and the reshape then needs exact divisibility. `Unblock` requires the sides to be multiples of the block size; every call in the source meets that.
- Node ids are `nat`, so negative ids are not modelled. Python would accept a negative id as an index into `H`, `b` or `dx`, counting from the end (`H[-1]`). In the model, every id that indexes them must be a slot in `[0, n)`.
- `b` is modelled as n blocks of 6x1. The source's singleton middle axis `(n, 1, 6, 1)` is dropped.
- `self._nodes[1].copy()` is a plain value assignment, since estimates are values in the model.
- Estimator.Marginalize: its contract gives only the shapes of the reduced system and of the solution. Its algebraic meaning is proved only when node 0 is uncoupled (`MarginalizeUncoupled`). The general Schur complement goes through `pinv` and is not characterized.
- Estimator.StepSpec: symmetry of `H` is proved up to the system that is marginalized (`ObservedSymmetric`). The write-back keeps it (`WriteBackSymmetric`) once the reduced matrix is symmetric. It is not carried through the Schur complement, because that would need `pinv` of a symmetric matrix to be symmetric, which the oracle does not promise.
- Estimator.MeanSquare: its contract states non-negativity and zero for a zero correction, not positivity for a non-zero one.
