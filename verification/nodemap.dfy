/**
 The estimator's node map (`_nodes`, node id to pose estimate) and what the
 source does to it besides linearization: seeding estimates, applying
 solved corrections, and listing the estimates in key order.
 */
module NodeMap {
  import opened Collaborators

  type Nodes = map<nat, Pose>

  // ---------------------------------------------------------------------
  // Seeding (`initialize_n`)

  /** The ids named by a list of `(id, estimate)` pairs. */
  function Ids(x0s: seq<(nat, Pose)>): (ids: set<nat>)
    ensures forall i | 0 <= i < |x0s| :: x0s[i].0 in ids
    decreases |x0s|
  {
    if |x0s| == 0 then {} else {x0s[0].0} + Ids(x0s[1..])
  }

  /** Every `(id, estimate)` pair stored in order, so a later pair for the same id overwrites an earlier one. */
  function Seeded(nodes: Nodes, x0s: seq<(nat, Pose)>): (r: Nodes)
    ensures r.Keys == nodes.Keys + Ids(x0s)
    decreases |x0s|
  {
    if |x0s| == 0 then nodes
    else Seeded(nodes[x0s[0].0 := x0s[0].1], x0s[1..])
  }

  /** No pair after position `i` names the same id as pair `i`. */
  predicate LastFor(x0s: seq<(nat, Pose)>, i: nat)
    requires i < |x0s|
  {
    forall j | i < j < |x0s| :: x0s[j].0 != x0s[i].0
  }

  /** After seeding, an id's estimate is the one from its last pair. */
  lemma {:induction false} SeededLast(nodes: Nodes, x0s: seq<(nat, Pose)>)
    ensures forall i | 0 <= i < |x0s| && LastFor(x0s, i) :: Seeded(nodes, x0s)[x0s[i].0] == x0s[i].1
    decreases |x0s|
  {
    if |x0s| > 0 {
      var rest := x0s[1..];
      var m := nodes[x0s[0].0 := x0s[0].1];
      SeededLast(m, rest);
      SeededUntouched(m, rest);
      forall i | 0 <= i < |x0s| && LastFor(x0s, i)
        ensures Seeded(nodes, x0s)[x0s[i].0] == x0s[i].1
      {
        if i > 0 {
          assert LastFor(rest, i - 1);
        } else {
          assert forall j | 0 <= j < |rest| :: rest[j].0 != x0s[0].0;
        }
      }
    }
  }

  /** Seeding leaves the ids no pair names as they were. */
  lemma {:induction false} SeededUntouched(nodes: Nodes, x0s: seq<(nat, Pose)>)
    ensures forall k | k in nodes && (forall i | 0 <= i < |x0s| :: x0s[i].0 != k) :: Seeded(nodes, x0s)[k] == nodes[k]
    decreases |x0s|
  {
    if |x0s| > 0 {
      var rest := x0s[1..];
      var m := nodes[x0s[0].0 := x0s[0].1];
      SeededUntouched(m, rest);
      forall k | k in nodes && (forall i | 0 <= i < |x0s| :: x0s[i].0 != k)
        ensures Seeded(nodes, x0s)[k] == nodes[k]
      {
        assert x0s[0].0 != k;
        assert forall i | 0 <= i < |rest| :: rest[i].0 == x0s[i + 1].0;
      }
    }
  }

  // ---------------------------------------------------------------------
  // Corrections

  /**
   The solution row node `i` reads in `step`: the source indexes `dx[i - 1]`,
   which for node 0 is Python's index -1, the last row.
   */
  function RowOf(i: nat, rows: nat): (r: nat)
    requires 0 < rows && i <= rows
    ensures r < rows && r == (i - 1) % rows
  {
    if i == 0 then rows - 1 else i - 1
  }

  /** `f` applied `count` times, starting from `x`, with the same increment `d`. */
  function Repeat(f: (Pose, seq<real>) -> Pose, x: Pose, d: seq<real>, count: nat): Pose
    decreases count
  {
    if count == 0 then x else Repeat(f, f(x, d), d, count - 1)
  }

  /**
   `step`'s corrections: for each entry `i` of the update list `zis`, in order,
   node `i` is corrected by solution row `RowOf(i)`. An id listed twice is
   corrected twice.
   */
  function Corrected(ops: Oracles, nodes: Nodes, zis: seq<nat>, dx: seq<seq<real>>): (r: Nodes)
    requires 0 < |dx| && forall k | 0 <= k < |zis| :: zis[k] in nodes && zis[k] <= |dx|
    ensures r.Keys == nodes.Keys
    decreases |zis|
  {
    if |zis| == 0 then nodes
    else
      var i := zis[0];
      Corrected(ops, nodes[i := ops.xaddAbs(nodes[i], dx[RowOf(i, |dx|)])], zis[1..], dx)
  }

  /**
   The outcome of the corrections for one node: an id that occurs `c` times in
   `zis` is corrected `c` times by its row; an id that does not occur is unchanged.
   */
  lemma {:induction false} CorrectedAt(ops: Oracles, nodes: Nodes, zis: seq<nat>, dx: seq<seq<real>>, k: nat)
    requires 0 < |dx| && forall j | 0 <= j < |zis| :: zis[j] in nodes && zis[j] <= |dx|
    requires k in nodes
    ensures k !in zis ==> Corrected(ops, nodes, zis, dx)[k] == nodes[k]
    ensures k in zis ==> Corrected(ops, nodes, zis, dx)[k] == Repeat(ops.xaddAbs, nodes[k], dx[RowOf(k, |dx|)], multiset(zis)[k])
    decreases |zis|
  {
    if |zis| > 0 {
      var i := zis[0];
      var m := nodes[i := ops.xaddAbs(nodes[i], dx[RowOf(i, |dx|)])];
      var rest := zis[1..];
      assert zis == [i] + rest;
      CorrectedAt(ops, m, rest, dx, k);
      if i == k && k !in rest {
        assert multiset(zis)[k] == 1;
      }
    }
  }

  /** `run`'s correction: every node with id below `n` is corrected by row `id` of `dx`. */
  function CorrectAll(ops: Oracles, nodes: Nodes, dx: seq<seq<real>>, n: nat): (r: Nodes)
    requires n <= |dx|
    ensures r.Keys == nodes.Keys
  {
    map k | k in nodes :: if k < n then ops.xaddAbs(nodes[k], dx[k]) else nodes[k]
  }

  /** Extending the correction bound by one corrects node `n` alone, if it is present. */
  lemma {:induction false} CorrectAllNext(ops: Oracles, nodes: Nodes, dx: seq<seq<real>>, n: nat)
    requires n < |dx|
    ensures CorrectAll(ops, nodes, dx, n + 1) ==
      if n in nodes then CorrectAll(ops, nodes, dx, n)[n := ops.xaddAbs(nodes[n], dx[n])] else CorrectAll(ops, nodes, dx, n)
  {
  }

  // ---------------------------------------------------------------------
  // Listing in key order

  /** A smallest element of a non-empty set of ids. */
  lemma {:induction false} MinOf(keys: set<nat>) returns (m: nat)
    requires keys != {}
    ensures m in keys && forall k | k in keys :: m <= k
    decreases keys
  {
    var x :| x in keys;
    var rest := keys - {x};
    assert forall k | k in keys :: k == x || k in rest;
    if rest == {} {
      m := x;
    } else {
      var m' := MinOf(rest);
      m := if x < m' then x else m';
    }
  }

  lemma {:induction false} MinExists(keys: set<nat>)
    requires keys != {}
    ensures exists m :: m in keys && forall k | k in keys :: m <= k
  {
    var m := MinOf(keys);
  }

  /** The smallest id of a non-empty set. */
  function Least(keys: set<nat>): (m: nat)
    requires keys != {}
    ensures m in keys && forall k | k in keys :: m <= k
  {
    MinExists(keys);
    var m :| m in keys && forall k | k in keys :: m <= k;
    m
  }

  /** `s` lists the ids of `keys` in strictly increasing order, each exactly once. */
  predicate SortedOf(s: seq<nat>, keys: set<nat>) {
    && |s| == |keys|
    && (forall i | 0 <= i < |s| :: s[i] in keys)
    && (forall k | k in keys :: k in s)
    && (forall i, j | 0 <= i < j < |s| :: s[i] < s[j])
  }

  /** Putting an id smaller than all others in front of their sorted listing sorts the larger set. */
  lemma {:induction false} SortedCons(m: nat, others: set<nat>, rest: seq<nat>)
    requires m !in others && (forall k | k in others :: m < k) && SortedOf(rest, others)
    ensures SortedOf([m] + rest, others + {m})
  {
    var s := [m] + rest;
    assert |others + {m}| == |others| + 1;
    assert forall i | 0 < i < |s| :: s[i] == rest[i - 1];
    forall i, j | 0 <= i < j < |s|
      ensures s[i] < s[j]
    {
      if i > 0 {
        assert s[i] == rest[i - 1] && s[j] == rest[j - 1];
      } else {
        assert s[j] == rest[j - 1] && rest[j - 1] in others;
      }
    }
    forall k | k in others + {m}
      ensures k in s
    {
      if k != m {
        var i :| 0 <= i < |rest| && rest[i] == k;
        assert s[i + 1] == k;
      }
    }
  }

  /** `sorted(keys)`: the ids in strictly increasing order, each exactly once. */
  function SortedKeys(keys: set<nat>): (s: seq<nat>)
    ensures SortedOf(s, keys)
    decreases keys
  {
    if keys == {} then []
    else
      var m := Least(keys);
      var others := keys - {m};
      assert others + {m} == keys;
      SortedCons(m, others, SortedKeys(others));
      [m] + SortedKeys(others)
  }

  /** The estimates listed by increasing id, as `step` and `run` return them. */
  function Ordered(nodes: Nodes): (xs: seq<Pose>)
    ensures |xs| == |nodes|
    ensures forall i | 0 <= i < |xs| :: SortedKeys(nodes.Keys)[i] in nodes && xs[i] == nodes[SortedKeys(nodes.Keys)[i]]
  {
    var ks := SortedKeys(nodes.Keys);
    seq(|ks|, i requires 0 <= i < |ks| => nodes[ks[i]])
  }
}
