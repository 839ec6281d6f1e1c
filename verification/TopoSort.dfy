/**
  Ordering the nodes 0..n of a directed graph so that every edge points forward. The original
  calls a library sort; this one repeatedly takes a node none of whose predecessors is left.
*/
module TopoSort {

  type Edges = set<(nat, nat)>

  ghost predicate InRange(n: nat, edges: Edges)
  {
    forall e | e in edges :: e.0 < n && e.1 < n
  }

  /** A closed walk along the edges. */
  ghost predicate IsCycle(edges: Edges, p: seq<nat>)
  {
    && |p| >= 2
    && p[0] == p[|p| - 1]
    && forall i | 0 <= i < |p| - 1 :: (p[i], p[i + 1]) in edges
  }

  ghost predicate HasCycle(edges: Edges)
  {
    exists p :: IsCycle(edges, p)
  }

  ghost predicate Distinct(order: seq<nat>)
  {
    forall i, j | 0 <= i < j < |order| :: order[i] != order[j]
  }

  /** Everything a node depends on stands before it. */
  ghost predicate Respects(order: seq<nat>, edges: Edges)
  {
    forall j | 0 <= j < |order| :: PredecessorsBefore(order, edges, j)
  }

  ghost predicate PredecessorsBefore(order: seq<nat>, edges: Edges, j: nat)
    requires j < |order|
  {
    forall u: nat | (u, order[j]) in edges :: u in order[..j]
  }

  /** Each of the n nodes exactly once, after everything it depends on. */
  ghost predicate IsTopological(n: nat, edges: Edges, order: seq<nat>)
  {
    && Distinct(order)
    && (forall v: nat :: v in order <==> v < n)
    && Respects(order, edges)
  }

  function UpTo(n: nat): (s: set<nat>)
    ensures forall v: nat :: v in s <==> v < n
  {
    if n == 0 then {} else UpTo(n - 1) + {n - 1}
  }

  predicate Free(left: set<nat>, edges: Edges, v: nat)
  {
    v in left && forall u | u in left :: (u, v) !in edges
  }

  /** No node of a non-empty remainder can be taken. */
  ghost predicate Stuck(left: set<nat>, edges: Edges)
  {
    left != {} && forall v: nat {:trigger Free(left, edges, v)} :: !Free(left, edges, v)
  }

  datatype Sorted = Order(nodes: seq<nat>) | Cyclic

  /** The sort answers with an order exactly when the graph has no cycle. */
  method Sort(n: nat, edges: Edges) returns (r: Sorted)
    requires InRange(n, edges)
    ensures r.Order? ==> IsTopological(n, edges, r.nodes)
    ensures r.Order? <==> !HasCycle(edges)
  {
    var order: seq<nat> := [];
    var left := UpTo(n);
    while left != {}
      invariant forall v: nat :: (v in order || v in left) <==> v < n
      invariant forall v: nat | v in left :: v !in order
      invariant Distinct(order) && Respects(order, edges)
      decreases |left|
    {
      if v: nat :| v in left && Free(left, edges, v) {
        TakeKeepsOrder(order, left, edges, n, v);
        order, left := order + [v], left - {v};
      } else {
        assert Stuck(left, edges);
        StuckHasCycle(left, edges);
        return Cyclic;
      }
    }
    OrderExcludesCycle(n, edges, order);
    return Order(order);
  }

  lemma TakeKeepsOrder(order: seq<nat>, left: set<nat>, edges: Edges, n: nat, v: nat)
    requires InRange(n, edges) && v in left
    requires forall u: nat :: (u in order || u in left) <==> u < n
    requires forall u: nat | u in left :: u !in order && (u, v) !in edges
    requires Distinct(order) && Respects(order, edges)
    ensures Distinct(order + [v]) && Respects(order + [v], edges)
  {
    var after := order + [v];
    forall j | 0 <= j < |after| ensures PredecessorsBefore(after, edges, j) {
      if j < |order| {
        assert PredecessorsBefore(order, edges, j);
        assert after[..j] == order[..j];
      } else {
        assert after[..j] == order;
      }
    }
  }

  // ------------------------------------------------- an order excludes a cycle

  lemma {:induction false} PositionOf(order: seq<nat>, v: nat) returns (i: nat)
    requires v in order
    ensures i < |order| && order[i] == v
  {
    i :| 0 <= i < |order| && order[i] == v;
  }

  /** Walking along edges moves forward in the order. */
  lemma {:induction false} WalkMovesForward(n: nat, edges: Edges, order: seq<nat>, p: seq<nat>, k: nat, i: nat, j: nat)
    requires InRange(n, edges) && IsTopological(n, edges, order)
    requires 0 < k < |p| && forall m | 0 <= m < |p| - 1 :: (p[m], p[m + 1]) in edges
    requires i < |order| && j < |order| && order[i] == p[0] && order[j] == p[k]
    ensures i < j
    decreases k
  {
    assert (p[k - 1], p[k]) in edges;
    assert PredecessorsBefore(order, edges, j);
    var m := PositionOf(order[..j], p[k - 1]);
    if k > 1 {
      WalkMovesForward(n, edges, order, p, k - 1, i, m);
    }
  }

  lemma OrderExcludesCycle(n: nat, edges: Edges, order: seq<nat>)
    requires InRange(n, edges) && IsTopological(n, edges, order)
    ensures !HasCycle(edges)
  {
    forall p ensures !IsCycle(edges, p) {
      if |p| >= 2 && p[0] == p[|p| - 1] && forall m | 0 <= m < |p| - 1 :: (p[m], p[m + 1]) in edges {
        assert (p[0], p[1]) in edges;
        var i := PositionOf(order, p[0]);
        WalkMovesForward(n, edges, order, p, |p| - 1, i, i);
      }
    }
  }

  // -------------------------------------------- being stuck gives a cycle

  /** A backward walk of `k` steps: each node is preceded by the next one. */
  ghost predicate IsBackwardWalk(edges: Edges, left: set<nat>, w: seq<nat>)
  {
    (forall i | 0 <= i < |w| :: w[i] in left) && forall i | 0 <= i < |w| - 1 :: (w[i + 1], w[i]) in edges
  }

  lemma {:induction false} BackwardWalk(left: set<nat>, edges: Edges, k: nat) returns (w: seq<nat>)
    requires Stuck(left, edges)
    ensures |w| == k + 1 && IsBackwardWalk(edges, left, w)
  {
    if k == 0 {
      var v :| v in left;
      w := [v];
    } else {
      w := BackwardWalk(left, edges, k - 1);
      assert !Free(left, edges, w[k - 1]);
      var u :| u in left && (u, w[k - 1]) in edges;
      w := w + [u];
    }
  }

  /** A walk longer than the number of its nodes repeats one. */
  lemma {:induction false} Pigeonhole(w: seq<nat>, left: set<nat>) returns (i: nat, j: nat)
    requires |w| > |left| && forall k | 0 <= k < |w| :: w[k] in left
    ensures i < j < |w| && w[i] == w[j]
    decreases |w|
  {
    var last := |w| - 1;
    if k :| 0 <= k < last && w[k] == w[last] {
      i, j := k, last;
    } else {
      i, j := Pigeonhole(w[..last], left - {w[last]});
    }
  }

  lemma StuckHasCycle(left: set<nat>, edges: Edges)
    requires Stuck(left, edges)
    ensures HasCycle(edges)
  {
    var w := BackwardWalk(left, edges, |left|);
    var i, j := Pigeonhole(w, left);
    var p := seq(j - i + 1, k requires 0 <= k <= j - i => w[j - k]);
    forall k | 0 <= k < |p| - 1 ensures (p[k], p[k + 1]) in edges {
      var m := j - k - 1;
      assert (w[m + 1], w[m]) in edges;
    }
    assert IsCycle(edges, p);
  }
}
