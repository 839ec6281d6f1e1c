/**
  From the queries of a request to a pipeline: one graph node per query, a registry from refID
  to node, one edge per declared variable, and a topological sort. The graph's node iterator
  promises no order, so the loops over it pick nodes in an arbitrary order.
*/
module Building {
  import opened Wrappers
  import opened Commands
  import opened Execution
  import opened TopoSort

  /**
    A query with what decoding its JSON yields: the command if the uid marks an expression, the
    datasource request otherwise, and the hide flag.
  */
  datatype Query = Query(
    refID: string,
    uid: Option<string>,
    command: Result<Command>,
    request: Result<string>,
    hide: Result<bool>)

  predicate IsExpression(uid: string)
  {
    uid == "__expr__" || uid == "-100"
  }

  function BuildNode(q: Query): Result<Node>
  {
    if q.uid.None? || q.uid.value == "" then Err("missing datasource uid")
    else if IsExpression(q.uid.value) then
      if q.command.Err? then Err(q.command.message) else Ok(CmdNode(q.refID, q.command.value))
    else
      if q.request.Err? then Err(q.request.message) else Ok(DsNode(q.refID, q.request.value))
  }

  /** The query names a datasource, and its payload is the command or the request that this uid asks for. */
  predicate Decodes(q: Query)
  {
    && q.uid.Some? && q.uid.value != ""
    && if q.uid.value == "__expr__" || q.uid.value == "-100" then q.command.Ok? else q.request.Ok?
  }

  /** The node carries the query's name and payload. */
  predicate Represents(n: Node, q: Query)
  {
    if q.uid == Some("__expr__") || q.uid == Some("-100")
    then q.command.Ok? && n == CmdNode(q.refID, q.command.value)
    else q.request.Ok? && n == DsNode(q.refID, q.request.value)
  }

  lemma BuiltNodeRepresents(q: Query)
    ensures BuildNode(q).Ok? <==> Decodes(q)
    ensures BuildNode(q).Ok? ==> Represents(BuildNode(q).value, q)
  {
  }

  lemma NodesRepresent(queries: seq<Query>)
    ensures WellFormed(queries) <==> forall i | 0 <= i < |queries| :: Decodes(queries[i])
    ensures WellFormed(queries) ==> forall i | 0 <= i < |queries| :: Represents(NodesOf(queries)[i], queries[i])
  {
    hide BuildNode;
    forall i | 0 <= i < |queries|
      ensures (BuildNode(queries[i]).Ok? <==> Decodes(queries[i])) &&
        (BuildNode(queries[i]).Ok? ==> Represents(BuildNode(queries[i]).value, queries[i]))
    {
      BuiltNodeRepresents(queries[i]);
    }
  }

  predicate WellFormed(queries: seq<Query>)
  {
    forall i | 0 <= i < |queries| :: BuildNode(queries[i]).Ok?
  }

  function NodesOf(queries: seq<Query>): (nodes: seq<Node>)
    requires WellFormed(queries)
    ensures |nodes| == |queries| && forall i | 0 <= i < |nodes| :: Ok(nodes[i]) == BuildNode(queries[i])
    ensures forall i | 0 <= i < |nodes| :: nodes[i].refID == queries[i].refID
  {
    seq(|queries|, i requires 0 <= i < |queries| => BuildNode(queries[i]).value)
  }

  predicate IsClassic(n: Node)
  {
    n.CmdNode? && n.cmd.ClassicConditions?
  }

  // ---------------------------------------------------------------------- graph

  class DirectedGraph {
    var nodes: seq<Node>          // by id
    var edges: Edges

    constructor()
      ensures nodes == [] && edges == {}
    {
      nodes, edges := [], {};
    }

    /** The new node's id is the next unused one. */
    method AddNode(n: Node) returns (id: nat)
      modifies this
      ensures id == |old(nodes)| && nodes == old(nodes) + [n] && edges == old(edges)
    {
      id := |nodes|;
      nodes := nodes + [n];
    }

    method SetEdge(from: nat, to: nat)
      requires from < |nodes| && to < |nodes| && from != to
      modifies this`edges
      ensures edges == old(edges) + {(from, to)}
    {
      edges := edges + {(from, to)};
    }
  }

  /** One node per query, in order, or the first query's error that cannot be built. */
  method BuildGraph(queries: seq<Query>) returns (r: Result<DirectedGraph>)
    ensures r.Ok? <==> WellFormed(queries)
    ensures r.Ok? ==> fresh(r.value) && r.value.nodes == NodesOf(queries) && r.value.edges == {}
    ensures r.Ok? <==> forall i | 0 <= i < |queries| :: Decodes(queries[i])
    ensures r.Ok? ==>
      |r.value.nodes| == |queries| && forall i | 0 <= i < |queries| :: Represents(r.value.nodes[i], queries[i])
  {
    NodesRepresent(queries);
    hide BuildNode;
    var dp := new DirectedGraph();
    for i := 0 to |queries|
      invariant fresh(dp) && dp.edges == {}
      invariant |dp.nodes| == i && forall j | 0 <= j < i :: BuildNode(queries[j]) == Ok(dp.nodes[j])
    {
      var node := BuildNode(queries[i]);
      if node.Err? {
        return Err(node.message);
      }
      var id := dp.AddNode(node.value);
    }
    assert dp.nodes == NodesOf(queries);
    return Ok(dp);
  }

  // ------------------------------------------------------------------- registry

  /** The registry knows every refID, by some node that carries it. */
  ghost predicate IsRegistry(nodes: seq<Node>, registry: map<string, nat>)
  {
    && (forall i | 0 <= i < |nodes| :: nodes[i].refID in registry)
    && (forall x | x in registry :: registry[x] < |nodes| && nodes[registry[x]].refID == x)
  }

  method BuildNodeRegistry(nodes: seq<Node>) returns (registry: map<string, nat>)
    ensures IsRegistry(nodes, registry)
  {
    registry := map[];
    var todo := UpTo(|nodes|);
    while todo != {}
      invariant forall i: nat | i in todo :: i < |nodes|
      invariant forall i: nat | i < |nodes| && i !in todo :: nodes[i].refID in registry
      invariant forall x | x in registry :: registry[x] < |nodes| && nodes[registry[x]].refID == x
      decreases |todo|
    {
      var i :| i in todo;
      registry := registry[nodes[i].refID := i];
      todo := todo - {i};
    }
  }

  // ---------------------------------------------------------------------- edges

  /** What is checked before the edge from the node called `name` to node `i` is drawn. */
  predicate EdgeOk(nodes: seq<Node>, registry: map<string, nat>, i: nat, name: string)
    requires i < |nodes|
  {
    && name in registry
    && registry[name] < |nodes|
    && registry[name] != i
    && (IsClassic(nodes[i]) ==> nodes[registry[name]].DsNode?)
    && !IsClassic(nodes[registry[name]])
  }

  predicate NodeEdgesOk(nodes: seq<Node>, registry: map<string, nat>, i: nat)
    requires i < |nodes|
  {
    forall k | 0 <= k < |Needs(nodes[i])| :: EdgeOk(nodes, registry, i, Needs(nodes[i])[k])
  }

  ghost predicate AllEdgesOk(nodes: seq<Node>, registry: map<string, nat>)
  {
    forall i: nat | i < |nodes| :: NodeEdgesOk(nodes, registry, i)
  }

  predicate Resolves(registry: map<string, nat>, name: string, id: nat)
  {
    name in registry && registry[name] == id
  }

  /** An edge of the dependency graph: `e.1` declares a variable that the registry resolves to `e.0`. */
  ghost predicate IsEdge(nodes: seq<Node>, registry: map<string, nat>, e: (nat, nat))
  {
    e.1 < |nodes| && exists k :: 0 <= k < |Needs(nodes[e.1])| && Resolves(registry, Needs(nodes[e.1])[k], e.0)
  }

  /** Among the first `m` needs of node `i`. */
  ghost predicate IsEdgeUpTo(nodes: seq<Node>, registry: map<string, nat>, i: nat, m: nat, e: (nat, nat))
    requires i < |nodes| && m <= |Needs(nodes[i])|
  {
    e.1 == i && exists k :: 0 <= k < m && Resolves(registry, Needs(nodes[i])[k], e.0)
  }

  lemma OneMoreNeed(nodes: seq<Node>, registry: map<string, nat>, i: nat, k: nat)
    requires i < |nodes| && k < |Needs(nodes[i])| && Needs(nodes[i])[k] in registry
    ensures forall e :: IsEdgeUpTo(nodes, registry, i, k + 1, e) <==>
      IsEdgeUpTo(nodes, registry, i, k, e) || e == (registry[Needs(nodes[i])[k]], i)
  {
    var needed := registry[Needs(nodes[i])[k]];
    assert Resolves(registry, Needs(nodes[i])[k], needed);
    assert IsEdgeUpTo(nodes, registry, i, k + 1, (needed, i));
  }

  lemma AllNeeds(nodes: seq<Node>, registry: map<string, nat>, i: nat)
    requires i < |nodes|
    ensures forall e :: IsEdgeUpTo(nodes, registry, i, |Needs(nodes[i])|, e) <==> IsEdge(nodes, registry, e) && e.1 == i
  {
  }

  /** Draws every edge, or reports the first violation it comes across. */
  method BuildGraphEdges(dp: DirectedGraph, registry: map<string, nat>) returns (ok: bool)
    requires IsRegistry(dp.nodes, registry) && dp.edges == {}
    modifies dp`edges
    ensures ok <==> AllEdgesOk(dp.nodes, registry)
    ensures ok ==> forall e :: e in dp.edges <==> IsEdge(dp.nodes, registry, e)
  {
    var todo := UpTo(|dp.nodes|);
    while todo != {}
      invariant forall i: nat | i in todo :: i < |dp.nodes|
      invariant forall i: nat | i < |dp.nodes| && i !in todo :: NodeEdgesOk(dp.nodes, registry, i)
      invariant forall e :: e in dp.edges <==> IsEdge(dp.nodes, registry, e) && e.1 !in todo
      decreases |todo|
    {
      var i :| i in todo;
      var ok' := BuildNodeEdges(dp, registry, i);
      if !ok' {
        return false;
      }
      AllNeeds(dp.nodes, registry, i);
      todo := todo - {i};
    }
    return true;
  }

  /** The inner loop: the declared variables of one node. */
  method BuildNodeEdges(dp: DirectedGraph, registry: map<string, nat>, i: nat) returns (ok: bool)
    requires i < |dp.nodes| && IsRegistry(dp.nodes, registry)
    modifies dp`edges
    ensures ok <==> NodeEdgesOk(dp.nodes, registry, i)
    ensures ok ==> forall e :: e in dp.edges <==>
      e in old(dp.edges) || IsEdgeUpTo(dp.nodes, registry, i, |Needs(dp.nodes[i])|, e)
  {
    if dp.nodes[i].DsNode? {
      return true;
    }
    var needs := Needs(dp.nodes[i]);
    for k := 0 to |needs|
      invariant dp.nodes == old(dp.nodes)
      invariant forall j | 0 <= j < k :: EdgeOk(dp.nodes, registry, i, needs[j])
      invariant forall e :: e in dp.edges <==> e in old(dp.edges) || IsEdgeUpTo(dp.nodes, registry, i, k, e)
    {
      if needs[k] !in registry {
        return false;
      }
      var needed := registry[needs[k]];
      if needed == i {
        return false;
      }
      if IsClassic(dp.nodes[i]) && !dp.nodes[needed].DsNode? {
        return false;
      }
      if IsClassic(dp.nodes[needed]) {
        return false;
      }
      dp.SetEdge(needed, i);
      OneMoreNeed(dp.nodes, registry, i, k);
    }
    return true;
  }

  // ------------------------------------------------------------------- pipeline

  /** A closed chain of dependencies. */
  ghost predicate IsDependencyCycle(nodes: seq<Node>, registry: map<string, nat>, p: seq<nat>)
  {
    && |p| >= 2
    && p[0] == p[|p| - 1]
    && forall i | 0 <= i < |p| - 1 :: IsEdge(nodes, registry, (p[i], p[i + 1]))
  }

  ghost predicate Cyclical(nodes: seq<Node>, registry: map<string, nat>)
  {
    exists p :: IsDependencyCycle(nodes, registry, p)
  }

  lemma CyclesAgree(nodes: seq<Node>, registry: map<string, nat>, edges: Edges)
    requires forall e :: e in edges <==> IsEdge(nodes, registry, e)
    ensures HasCycle(edges) <==> Cyclical(nodes, registry)
  {
    forall p ensures IsCycle(edges, p) <==> IsDependencyCycle(nodes, registry, p) {
    }
  }

  /** The nodes in the order of their ids. */
  function Pick(nodes: seq<Node>, order: seq<nat>): (r: seq<Node>)
    requires forall i | 0 <= i < |order| :: order[i] < |nodes|
    ensures |r| == |order| && forall i | 0 <= i < |r| :: r[i] == nodes[order[i]]
  {
    seq(|order|, i requires 0 <= i < |order| => nodes[order[i]])
  }

  /** Every node once, and after the node that each of its declared variables resolves to. */
  ghost predicate IsExecutionOrder(nodes: seq<Node>, registry: map<string, nat>, order: seq<nat>)
  {
    && Distinct(order)
    && (forall i | 0 <= i < |order| :: order[i] < |nodes|)
    && (forall v: nat | v < |nodes| :: v in order)
    && (forall j: nat, u: nat | j < |order| && IsEdge(nodes, registry, (u, order[j])) :: u in order[..j])
  }

  lemma TopologicalIsExecutionOrder(nodes: seq<Node>, registry: map<string, nat>, edges: Edges, order: seq<nat>)
    requires forall e :: e in edges <==> IsEdge(nodes, registry, e)
    requires IsTopological(|nodes|, edges, order)
    ensures IsExecutionOrder(nodes, registry, order)
  {
    forall i | 0 <= i < |order| ensures order[i] < |nodes| {
      assert order[i] in order;
    }
    forall j: nat, u: nat | j < |order| && IsEdge(nodes, registry, (u, order[j])) ensures u in order[..j] {
      assert PredecessorsBefore(order, edges, j);
      assert (u, order[j]) in edges;
    }
  }

  lemma EdgesInRange(nodes: seq<Node>, registry: map<string, nat>, edges: Edges)
    requires IsRegistry(nodes, registry) && forall e :: e in edges <==> IsEdge(nodes, registry, e)
    ensures InRange(|nodes|, edges)
  {
  }

  /**
    Building succeeds if and only if every query decodes, every declared variable resolves to
    another node, classic conditions read only datasources and feed nothing, and no dependency
    cycle exists. `registry` is the name table the run happened to build. With unique refIDs that
    condition is about the dependency graph alone: recursion over it ends and the rules for
    classic conditions hold.
  */
  method BuildPipeline(queries: seq<Query>) returns (r: Result<seq<Node>>, ghost registry: map<string, nat>, ghost order: seq<nat>)
    ensures WellFormed(queries) ==> IsRegistry(NodesOf(queries), registry)
    ensures r.Ok? <==>
      WellFormed(queries) && AllEdgesOk(NodesOf(queries), registry) && !Cyclical(NodesOf(queries), registry)
    ensures r.Ok? ==> IsExecutionOrder(NodesOf(queries), registry, order) && r.value == Pick(NodesOf(queries), order)
    ensures r.Ok? ==>
      && (forall i | 0 <= i < |queries| :: Decodes(queries[i]))
      && |r.value| == |order| && forall k | 0 <= k < |order| :: order[k] < |queries| && Represents(r.value[k], queries[order[k]])
    ensures WellFormed(queries) && UniqueNames(NodesOf(queries)) ==>
      var g := GraphOf(NodesOf(queries)); (r.Ok? <==> Buildable(g)) && (r.Ok? ==> IsPipeline(g, r.value))
  {
    hide Needs;
    hide GraphOf;
    hide IsPipeline;
    hide Buildable;
    hide IsEdge;
    hide BuildNode;
    hide Decodes;
    hide Represents;
    registry, order := map[], [];
    var graph := BuildGraph(queries);
    if graph.Err? {
      return Err(graph.message), registry, order;
    }
    var dp := graph.value;
    var names := BuildNodeRegistry(dp.nodes);
    registry := names;
    if UniqueNames(dp.nodes) && Buildable(GraphOf(dp.nodes)) {
      BuildableIsAccepted(dp.nodes, names);
    }
    var ok := BuildGraphEdges(dp, names);
    if !ok {
      return Err("invalid dependency"), registry, order;
    }
    EdgesInRange(dp.nodes, names, dp.edges);
    CyclesAgree(dp.nodes, names, dp.edges);
    var sorted := Sort(|dp.nodes|, dp.edges);
    if sorted.Cyclic? {
      return Err("cyclic components"), registry, order;
    }
    TopologicalIsExecutionOrder(dp.nodes, names, dp.edges, sorted.nodes);
    order := sorted.nodes;
    if UniqueNames(dp.nodes) {
      BuiltIsPipeline(dp.nodes, names, order);
      AcceptedIsBuildable(dp.nodes, names, order);
    }
    return Ok(Pick(dp.nodes, sorted.nodes)), registry, order;
  }

  // --------------------------------------------------------------- unique names

  ghost predicate UniqueNames(nodes: seq<Node>)
  {
    forall i, j | 0 <= i < j < |nodes| :: nodes[i].refID != nodes[j].refID
  }

  /** With unique refIDs there is only one registry, so the verdict does not depend on iteration order. */
  lemma RegistryIsUnique(nodes: seq<Node>, r1: map<string, nat>, r2: map<string, nat>)
    requires UniqueNames(nodes) && IsRegistry(nodes, r1) && IsRegistry(nodes, r2)
    ensures r1 == r2
  {
    forall x | x in r1 ensures x in r2 && r1[x] == r2[x] {
      assert nodes[r1[x]].refID == x;
    }
    forall x | x in r2 ensures x in r1 {
      assert nodes[r2[x]].refID == x;
    }
  }

  function GraphOf(nodes: seq<Node>): Graph
  {
    if nodes == [] then map[] else GraphOf(nodes[..|nodes| - 1])[nodes[|nodes| - 1].refID := nodes[|nodes| - 1]]
  }

  lemma {:induction false} GraphHolds(nodes: seq<Node>)
    requires UniqueNames(nodes)
    ensures forall i | 0 <= i < |nodes| :: nodes[i].refID in GraphOf(nodes) && GraphOf(nodes)[nodes[i].refID] == nodes[i]
    ensures forall x | x in GraphOf(nodes) :: GraphOf(nodes)[x].refID == x && exists i :: 0 <= i < |nodes| && nodes[i].refID == x
  {
    if nodes != [] {
      var init, last := nodes[..|nodes| - 1], nodes[|nodes| - 1];
      GraphHolds(init);
      forall i | 0 <= i < |nodes| ensures nodes[i].refID in GraphOf(nodes) && GraphOf(nodes)[nodes[i].refID] == nodes[i] {
        if i < |init| {
          assert init[i] == nodes[i];
        }
      }
      forall x | x in GraphOf(nodes)
        ensures GraphOf(nodes)[x].refID == x && exists i :: 0 <= i < |nodes| && nodes[i].refID == x
      {
        if x == last.refID {
          assert nodes[|init|].refID == x;
        } else {
          assert x in GraphOf(init);
          var i :| 0 <= i < |init| && init[i].refID == x;
          assert nodes[i].refID == x;
        }
      }
    }
  }

  lemma NeedResolves(nodes: seq<Node>, registry: map<string, nat>, order: seq<nat>, j: nat, y: string)
    requires IsRegistry(nodes, registry) && AllEdgesOk(nodes, registry) && IsExecutionOrder(nodes, registry, order)
    requires j < |order| && y in Needs(nodes[order[j]])
    ensures y in registry && registry[y] in order[..j] && registry[y] < |nodes| && nodes[registry[y]].refID == y
  {
    var i := order[j];
    var k :| 0 <= k < |Needs(nodes[i])| && Needs(nodes[i])[k] == y;
    assert NodeEdgesOk(nodes, registry, i);
    assert EdgeOk(nodes, registry, i, y);
    assert Resolves(registry, Needs(nodes[i])[k], registry[y]);
    assert IsEdge(nodes, registry, (registry[y], order[j]));
  }

  lemma OrderHasNeedsBefore(nodes: seq<Node>, registry: map<string, nat>, order: seq<nat>, j: nat)
    requires IsRegistry(nodes, registry) && AllEdgesOk(nodes, registry) && IsExecutionOrder(nodes, registry, order)
    requires j < |order|
    ensures NeedsBefore(Pick(nodes, order), j)
  {
    hide Needs;
    var picked := Pick(nodes, order);
    forall y | y in Needs(picked[j]) ensures y in Names(picked)[..j] {
      NeedResolves(nodes, registry, order, j, y);
      var m :| 0 <= m < j && order[..j][m] == registry[y];
      assert Names(picked)[..j][m] == y;
    }
  }

  lemma OrderCovers(nodes: seq<Node>, registry: map<string, nat>, order: seq<nat>, i: nat)
    requires IsExecutionOrder(nodes, registry, order) && i < |nodes|
    ensures nodes[i].refID in Names(Pick(nodes, order))
  {
    assert i in order;
    var j :| 0 <= j < |order| && order[j] == i;
    assert Names(Pick(nodes, order))[j] == nodes[i].refID;
  }

  /** What the builder returns is a pipeline of the dependency graph, in the sense execution relies on. */
  lemma BuiltIsPipeline(nodes: seq<Node>, registry: map<string, nat>, order: seq<nat>)
    requires UniqueNames(nodes) && IsRegistry(nodes, registry) && AllEdgesOk(nodes, registry)
    requires IsExecutionOrder(nodes, registry, order)
    ensures IsPipeline(GraphOf(nodes), Pick(nodes, order))
  {
    hide Needs;
    hide GraphOf;
    hide NeedsBefore;
    var g, picked := GraphOf(nodes), Pick(nodes, order);
    GraphHolds(nodes);
    PickedAreDistinct(nodes, order);
    forall x | x in g ensures x in Names(picked) {
      var i :| 0 <= i < |nodes| && nodes[i].refID == x;
      OrderCovers(nodes, registry, order, i);
    }
    forall j | 0 <= j < |picked| ensures NeedsBefore(picked, j) {
      OrderHasNeedsBefore(nodes, registry, order, j);
    }
    forall i | 0 <= i < |picked| ensures picked[i].refID in g && g[picked[i].refID] == picked[i] {
      assert picked[i] == nodes[order[i]];
    }
  }

  lemma PickedAreDistinct(nodes: seq<Node>, order: seq<nat>)
    requires UniqueNames(nodes) && Distinct(order) && forall i | 0 <= i < |order| :: order[i] < |nodes|
    ensures forall i, j | 0 <= i < j < |order| :: Pick(nodes, order)[i].refID != Pick(nodes, order)[j].refID
  {
    forall i, j | 0 <= i < j < |order| ensures Pick(nodes, order)[i].refID != Pick(nodes, order)[j].refID {
      assert order[i] != order[j];
    }
  }

  // ------------------------------------------------------- what can be scheduled

  /** A classic condition reads only datasources and nothing reads a classic condition. */
  ghost predicate ClassicRules(g: Graph, n: Node, y: string)
  {
    y in g && (IsClassic(n) ==> g[y].DsNode?) && !IsClassic(g[y])
  }

  /** The rules hold and recursive evaluation ends. */
  ghost predicate Buildable(g: Graph)
  {
    && (forall x, y | x in g && y in Needs(g[x]) :: ClassicRules(g, g[x], y))
    && exists rank :: Ranked(g, rank)
  }

  lemma RegistryIsGraph(nodes: seq<Node>, registry: map<string, nat>, y: string)
    requires UniqueNames(nodes) && IsRegistry(nodes, registry)
    ensures y in registry <==> y in GraphOf(nodes)
    ensures y in registry ==> registry[y] < |nodes| && GraphOf(nodes)[y] == nodes[registry[y]] && nodes[registry[y]].refID == y
  {
    hide GraphOf;
    GraphHolds(nodes);
  }

  lemma AcceptedKeepsRules(nodes: seq<Node>, registry: map<string, nat>, x: string, y: string)
    requires UniqueNames(nodes) && IsRegistry(nodes, registry) && AllEdgesOk(nodes, registry)
    requires x in GraphOf(nodes) && y in Needs(GraphOf(nodes)[x])
    ensures ClassicRules(GraphOf(nodes), GraphOf(nodes)[x], y)
  {
    hide GraphOf;
    hide Needs;
    RegistryIsGraph(nodes, registry, x);
    RegistryIsGraph(nodes, registry, y);
    var i := registry[x];
    var k :| 0 <= k < |Needs(nodes[i])| && Needs(nodes[i])[k] == y;
    assert NodeEdgesOk(nodes, registry, i);
    assert EdgeOk(nodes, registry, i, y);
  }

  lemma AcceptedIsBuildable(nodes: seq<Node>, registry: map<string, nat>, order: seq<nat>)
    requires UniqueNames(nodes) && IsRegistry(nodes, registry) && AllEdgesOk(nodes, registry)
    requires IsExecutionOrder(nodes, registry, order)
    ensures Buildable(GraphOf(nodes))
  {
    hide GraphOf;
    hide Needs;
    hide IsPipeline;
    hide Ranked;
    hide ClassicRules;
    var g := GraphOf(nodes);
    forall x, y | x in g && y in Needs(g[x]) ensures ClassicRules(g, g[x], y) {
      AcceptedKeepsRules(nodes, registry, x, y);
    }
    BuiltIsPipeline(nodes, registry, order);
    var rank := PipelineRanks(g, Pick(nodes, order));
  }

  /** The rank of a node by its id. */
  ghost function RankAt(nodes: seq<Node>, rank: map<string, nat>, i: nat): nat
  {
    if i < |nodes| && nodes[i].refID in rank then rank[nodes[i].refID] else 0
  }

  lemma EdgeClimbs(nodes: seq<Node>, registry: map<string, nat>, rank: map<string, nat>, e: (nat, nat))
    requires UniqueNames(nodes) && IsRegistry(nodes, registry) && Ranked(GraphOf(nodes), rank) && IsEdge(nodes, registry, e)
    ensures RankAt(nodes, rank, e.0) < RankAt(nodes, rank, e.1)
  {
    hide GraphOf;
    hide Needs;
    GraphHolds(nodes);
    var n := nodes[e.1];
    var k :| 0 <= k < |Needs(n)| && Resolves(registry, Needs(n)[k], e.0);
    assert Below(GraphOf(nodes), rank, Needs(n), rank[n.refID]);
  }

  lemma {:induction false} WalkClimbs(nodes: seq<Node>, registry: map<string, nat>, rank: map<string, nat>, p: seq<nat>, k: nat)
    requires UniqueNames(nodes) && IsRegistry(nodes, registry) && Ranked(GraphOf(nodes), rank)
    requires 0 < k < |p| && forall i | 0 <= i < |p| - 1 :: IsEdge(nodes, registry, (p[i], p[i + 1]))
    ensures RankAt(nodes, rank, p[0]) < RankAt(nodes, rank, p[k])
  {
    hide GraphOf;
    hide IsEdge;
    hide Ranked;
    if k > 1 {
      WalkClimbs(nodes, registry, rank, p, k - 1);
    }
    EdgeClimbs(nodes, registry, rank, (p[k - 1], p[k]));
  }

  lemma BuildableNeed(nodes: seq<Node>, registry: map<string, nat>, rank: map<string, nat>, i: nat, k: nat)
    requires UniqueNames(nodes) && IsRegistry(nodes, registry) && Buildable(GraphOf(nodes)) && Ranked(GraphOf(nodes), rank)
    requires i < |nodes| && k < |Needs(nodes[i])|
    ensures EdgeOk(nodes, registry, i, Needs(nodes[i])[k])
  {
    hide GraphOf;
    hide Needs;
    GraphHolds(nodes);
    var g, x, y := GraphOf(nodes), nodes[i].refID, Needs(nodes[i])[k];
    assert g[x] == nodes[i] && y in Needs(g[x]);
    assert ClassicRules(g, g[x], y);
    assert Below(g, rank, Needs(g[x]), rank[x]);
    RegistryIsGraph(nodes, registry, y);
  }

  /** Whatever can be evaluated recursively under the rules is accepted. */
  lemma BuildableIsAccepted(nodes: seq<Node>, registry: map<string, nat>)
    requires UniqueNames(nodes) && IsRegistry(nodes, registry) && Buildable(GraphOf(nodes))
    ensures AllEdgesOk(nodes, registry) && !Cyclical(nodes, registry)
  {
    hide GraphOf;
    hide Needs;
    hide Ranked;
    hide IsEdge;
    hide EdgeOk;
    var rank :| Ranked(GraphOf(nodes), rank);
    forall i: nat | i < |nodes| ensures NodeEdgesOk(nodes, registry, i) {
      forall k | 0 <= k < |Needs(nodes[i])| ensures EdgeOk(nodes, registry, i, Needs(nodes[i])[k]) {
        BuildableNeed(nodes, registry, rank, i, k);
      }
    }
    forall p ensures !IsDependencyCycle(nodes, registry, p) {
      if IsDependencyCycle(nodes, registry, p) {
        WalkClimbs(nodes, registry, rank, p, |p| - 1);
      }
    }
  }
}
