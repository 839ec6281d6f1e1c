/**
  Running a pipeline: nodes execute in order over a shared map of results. The specification is
  recursive evaluation over the dependency graph, which knows nothing about order.
*/
module Execution {
  import opened Wrappers
  import opened MathValues
  import opened MathLexer
  import opened Threshold
  import opened Commands

  datatype Node = CmdNode(refID: string, cmd: Command) | DsNode(refID: string, query: string)

  /** What a node waits for; a datasource query waits for nothing. */
  function Needs(n: Node): seq<string>
  {
    if n.CmdNode? then NeedsVars(n.cmd) else []
  }

  /** The expression environment and the datasource plugins' answers. */
  datatype Service = Service(env: Env, query: string -> Result<Results>)

  /** All that is asked of the environment: nothing about how numbers are read or computed. */
  ghost predicate ServiceOk(s: Service)
  {
    Unicode(s.env.classes)
  }

  predicate HonestNode(n: Node)
  {
    n.CmdNode? ==> Honest(n.cmd)
  }

  function Exec(s: Service, n: Node, vars: Vars): Result<Results>
  {
    if n.CmdNode? then Execute(s.env, n.cmd, vars) else s.query(n.query)
  }

  function RunPipeline(s: Service, nodes: seq<Node>): Result<Vars>
  {
    if nodes == [] then Ok(map[])
    else
      var before, n := RunPipeline(s, nodes[..|nodes| - 1]), nodes[|nodes| - 1];
      if before.Err? then before
      else
        var r := Exec(s, n, before.value);
        if r.Err? then Err(r.message) else Ok(before.value[n.refID := r.value])
  }

  lemma {:induction false} FailureIsFinal(s: Service, nodes: seq<Node>, n: nat)
    requires n <= |nodes| && RunPipeline(s, nodes[..n]).Err?
    ensures RunPipeline(s, nodes) == RunPipeline(s, nodes[..n])
  {
    if n == |nodes| {
      assert nodes[..n] == nodes;
    } else {
      assert nodes[..|nodes| - 1][..n] == nodes[..n];
      FailureIsFinal(s, nodes[..|nodes| - 1], n);
    }
  }

  /** DataPipeline.execute: the first failing node ends the run. */
  method ExecutePipeline(s: Service, nodes: seq<Node>) returns (r: Result<Vars>)
    ensures r == RunPipeline(s, nodes)
  {
    var vars: Vars := map[];
    for i := 0 to |nodes|
      invariant RunPipeline(s, nodes[..i]) == Ok(vars)
    {
      assert nodes[..i + 1][..i] == nodes[..i];
      var res := Exec(s, nodes[i], vars);
      if res.Err? {
        FailureIsFinal(s, nodes, i + 1);
        return Err(res.message);
      }
      vars := vars[nodes[i].refID := res.value];
    }
    assert nodes[..|nodes|] == nodes;
    return Ok(vars);
  }

  // --------------------------------------------------------- recursive meaning

  /** The dependency graph: one node per refID. */
  type Graph = map<string, Node>

  /** All of these names are in the graph and rank below `bound`. */
  ghost predicate Below(g: Graph, rank: map<string, nat>, names: seq<string>, bound: nat)
  {
    forall i | 0 <= i < |names| :: names[i] in g && names[i] in rank && rank[names[i]] < bound
  }

  /** Dependencies stay inside the graph and have smaller rank. */
  ghost predicate Ranked(g: Graph, rank: map<string, nat>)
  {
    rank.Keys == g.Keys && forall x | x in g :: Below(g, rank, Needs(g[x]), rank[x])
  }

  ghost predicate GraphOk(g: Graph)
  {
    forall x | x in g :: g[x].refID == x && HonestNode(g[x])
  }

  /** The value of a refID: execute its node on the values of what it needs, and on nothing else. */
  ghost function Meaning(s: Service, g: Graph, rank: map<string, nat>, x: string): Result<Results>
    requires Ranked(g, rank) && x in g
    decreases rank[x], 1, 0
  {
    var inputs := Meanings(s, g, rank, Needs(g[x]), rank[x]);
    if inputs.Err? then Err(inputs.message) else Exec(s, g[x], inputs.value)
  }

  ghost function Meanings(s: Service, g: Graph, rank: map<string, nat>, names: seq<string>, bound: nat): Result<Vars>
    requires Ranked(g, rank) && Below(g, rank, names, bound)
    decreases bound, 0, |names|
  {
    if names == [] then Ok(map[])
    else
      var n := |names| - 1;
      var rest := Meanings(s, g, rank, names[..n], bound);
      if rest.Err? then rest
      else
        var r := Meaning(s, g, rank, names[n]);
        if r.Err? then Err(r.message) else Ok(rest.value[names[n] := r.value])
  }

  /** The meaning does not depend on the rank by which its recursion is shown to end. */
  lemma {:induction false} MeaningIsRankFree(s: Service, g: Graph, rank: map<string, nat>, rank': map<string, nat>, x: string)
    requires Ranked(g, rank) && Ranked(g, rank') && x in g
    ensures Meaning(s, g, rank, x) == Meaning(s, g, rank', x)
    decreases rank[x], 1, 0
  {
    hide Exec;
    hide Needs;
    MeaningsAreRankFree(s, g, rank, rank', Needs(g[x]), rank[x], rank'[x]);
  }

  lemma {:induction false} MeaningsAreRankFree(s: Service, g: Graph, rank: map<string, nat>, rank': map<string, nat>,
                                               names: seq<string>, bound: nat, bound': nat)
    requires Ranked(g, rank) && Ranked(g, rank') && Below(g, rank, names, bound) && Below(g, rank', names, bound')
    ensures Meanings(s, g, rank, names, bound) == Meanings(s, g, rank', names, bound')
    decreases bound, 0, |names|
  {
    hide Exec;
    hide Needs;
    if names != [] {
      var n := |names| - 1;
      MeaningsAreRankFree(s, g, rank, rank', names[..n], bound, bound');
      MeaningIsRankFree(s, g, rank, rank', names[n]);
    }
  }

  /** The inputs of a node are available exactly when each one has a value, and are those values. */
  lemma {:induction false} MeaningsAre(s: Service, g: Graph, rank: map<string, nat>, names: seq<string>, bound: nat, vars: Vars)
    requires Ranked(g, rank) && Below(g, rank, names, bound)
    requires forall i | 0 <= i < |names| :: names[i] in vars && Meaning(s, g, rank, names[i]) == Ok(vars[names[i]])
    ensures
      var r := Meanings(s, g, rank, names, bound);
      r.Ok? && AgreeOn(r.value, vars, names)
  {
    hide Meaning;
    if names != [] {
      var n := |names| - 1;
      MeaningsAre(s, g, rank, names[..n], bound, vars);
      var rest := Meanings(s, g, rank, names[..n], bound).value;
      forall i | 0 <= i < |names| ensures Lookup(rest[names[n] := vars[names[n]]], names[i]) == Lookup(vars, names[i]) {
        if names[i] != names[n] {
          assert names[..n][i] == names[i];
        }
      }
    }
  }

  // ----------------------------------------------------------------- refinement

  /** The pipeline lists the graph's nodes once each, every node after what it needs. */
  ghost predicate IsPipeline(g: Graph, nodes: seq<Node>)
  {
    && (forall i | 0 <= i < |nodes| :: nodes[i].refID in g && g[nodes[i].refID] == nodes[i])
    && (forall i, j | 0 <= i < j < |nodes| :: nodes[i].refID != nodes[j].refID)
    && (forall x | x in g :: x in Names(nodes))
    && (forall j | 0 <= j < |nodes| :: NeedsBefore(nodes, j))
  }

  function Names(nodes: seq<Node>): (r: seq<string>)
    ensures |r| == |nodes| && forall i | 0 <= i < |r| :: r[i] == nodes[i].refID
  {
    seq(|nodes|, i requires 0 <= i < |nodes| => nodes[i].refID)
  }

  ghost predicate NeedsBefore(nodes: seq<Node>, j: nat)
    requires j < |nodes|
  {
    forall y | y in Needs(nodes[j]) :: y in Names(nodes)[..j]
  }

  /** A prefix of the run has computed exactly the meanings of its nodes. */
  ghost predicate Computed(s: Service, g: Graph, rank: map<string, nat>, nodes: seq<Node>, k: nat, vars: Vars)
    requires Ranked(g, rank) && k <= |nodes| && forall i | 0 <= i < |nodes| :: nodes[i].refID in g
  {
    && (forall x :: x in vars <==> x in Names(nodes)[..k])
    && (forall i | 0 <= i < k :: nodes[i].refID in vars && Meaning(s, g, rank, nodes[i].refID) == Ok(vars[nodes[i].refID]))
  }

  lemma ComputedAt(s: Service, g: Graph, rank: map<string, nat>, nodes: seq<Node>, k: nat, vars: Vars, x: string)
    requires Ranked(g, rank) && k <= |nodes| && (forall i | 0 <= i < |nodes| :: nodes[i].refID in g)
    requires Computed(s, g, rank, nodes, k, vars) && x in vars && x in g
    ensures Meaning(s, g, rank, x) == Ok(vars[x])
  {
    hide Meaning;
    var i :| 0 <= i < k && Names(nodes)[..k][i] == x;
    assert nodes[i].refID == x;
  }

  /** Executing a node over the shared map is executing it on its dependencies' meanings. */
  lemma ExecIsMeaning(s: Service, g: Graph, rank: map<string, nat>, nodes: seq<Node>, k: nat, vars: Vars)
    requires ServiceOk(s) && GraphOk(g) && Ranked(g, rank) && IsPipeline(g, nodes) && k < |nodes|
    requires Computed(s, g, rank, nodes, k, vars)
    ensures Meaning(s, g, rank, nodes[k].refID) == Exec(s, nodes[k], vars)
  {
    var n := nodes[k];
    NeedsAreComputed(s, g, rank, nodes, k, vars);
    assert Below(g, rank, Needs(n), rank[n.refID]);
    MeaningsAre(s, g, rank, Needs(n), rank[n.refID], vars);
    if n.CmdNode? {
      CommandIsLocal(s.env, n.cmd, Meanings(s, g, rank, Needs(n), rank[n.refID]).value, vars);
    }
  }

  lemma NeedsAreComputed(s: Service, g: Graph, rank: map<string, nat>, nodes: seq<Node>, k: nat, vars: Vars)
    requires Ranked(g, rank) && IsPipeline(g, nodes) && k < |nodes| && Computed(s, g, rank, nodes, k, vars)
    ensures forall i | 0 <= i < |Needs(nodes[k])| ::
      var y := Needs(nodes[k])[i]; y in vars && y in g && Meaning(s, g, rank, y) == Ok(vars[y])
  {
    hide Meaning;
    var names := Needs(nodes[k]);
    hide Needs;
    assert NeedsBefore(nodes, k);
    assert Below(g, rank, names, rank[nodes[k].refID]);
    forall i | 0 <= i < |names| ensures var y := names[i]; y in vars && y in g && Meaning(s, g, rank, y) == Ok(vars[y]) {
      assert names[i] in names;
      ComputedAt(s, g, rank, nodes, k, vars, names[i]);
    }
  }

  ghost predicate RunState(s: Service, g: Graph, rank: map<string, nat>, nodes: seq<Node>, k: nat, r: Result<Vars>)
    requires Ranked(g, rank) && k <= |nodes| && forall i | 0 <= i < |nodes| :: nodes[i].refID in g
  {
    match r
    case Ok(vars) => Computed(s, g, rank, nodes, k, vars)
    case Err(_) => exists i :: 0 <= i < k && Meaning(s, g, rank, nodes[i].refID).Err?
  }

  lemma {:induction false} RunComputes(s: Service, g: Graph, rank: map<string, nat>, nodes: seq<Node>, k: nat)
    requires ServiceOk(s) && GraphOk(g) && Ranked(g, rank) && IsPipeline(g, nodes) && k <= |nodes|
    ensures RunState(s, g, rank, nodes, k, RunPipeline(s, nodes[..k]))
  {
    if k > 0 {
      hide Exec;
      hide Meaning;
      hide IsPipeline;
      RunComputes(s, g, rank, nodes, k - 1);
      assert nodes[..k][..k - 1] == nodes[..k - 1];
      var before := RunPipeline(s, nodes[..k - 1]);
      if before.Ok? {
        ExecIsMeaning(s, g, rank, nodes, k - 1, before.value);
        if RunPipeline(s, nodes[..k]).Ok? {
          ComputedGrows(s, g, rank, nodes, k - 1, before.value, Exec(s, nodes[k - 1], before.value).value);
        }
      }
    }
  }

  lemma ComputedGrows(s: Service, g: Graph, rank: map<string, nat>, nodes: seq<Node>, k: nat, vars: Vars, r: Results)
    requires Ranked(g, rank) && IsPipeline(g, nodes) && k < |nodes| && Computed(s, g, rank, nodes, k, vars)
    requires Meaning(s, g, rank, nodes[k].refID) == Ok(r)
    ensures Computed(s, g, rank, nodes, k + 1, vars[nodes[k].refID := r])
  {
    hide Meaning;
    hide Ranked;
    hide NeedsBefore;
    NamesGrow(nodes, k, vars, r);
    var vars' := vars[nodes[k].refID := r];
    forall i | 0 <= i < k + 1
      ensures nodes[i].refID in vars' && Meaning(s, g, rank, nodes[i].refID) == Ok(vars'[nodes[i].refID])
    {
      if i < k {
        assert nodes[i].refID != nodes[k].refID;
      }
    }
  }

  lemma NamesGrow(nodes: seq<Node>, k: nat, vars: Vars, r: Results)
    requires k < |nodes| && forall x :: x in vars <==> x in Names(nodes)[..k]
    ensures var vars' := vars[nodes[k].refID := r]; forall x :: x in vars' <==> x in Names(nodes)[..k + 1]
  {
    assert Names(nodes)[..k + 1] == Names(nodes)[..k] + [nodes[k].refID];
  }

  /**
    Executing a pipeline refines recursive evaluation: it succeeds exactly when every node of
    the graph has a value, and then the map holds exactly those values.
  */
  lemma ExecutionIsMeaning(s: Service, g: Graph, rank: map<string, nat>, nodes: seq<Node>)
    requires ServiceOk(s) && GraphOk(g) && Ranked(g, rank) && IsPipeline(g, nodes)
    ensures
      var r := RunPipeline(s, nodes);
      && (r.Ok? <==> forall x | x in g :: Meaning(s, g, rank, x).Ok?)
      && (r.Ok? ==> r.value.Keys == g.Keys && forall x | x in g :: Meaning(s, g, rank, x) == Ok(r.value[x]))
  {
    hide Meaning;
    hide RunPipeline;
    RunComputes(s, g, rank, nodes, |nodes|);
    assert nodes[..|nodes|] == nodes && Names(nodes)[..|nodes|] == Names(nodes);
    var r := RunPipeline(s, nodes);
    if r.Ok? {
      forall x | x in g ensures x in r.value && Meaning(s, g, rank, x) == Ok(r.value[x]) {
        assert x in Names(nodes);
        ComputedAt(s, g, rank, nodes, |nodes|, r.value, x);
      }
    }
  }

  /** A pipeline ranks its graph by position. */
  lemma PipelineRanks(g: Graph, nodes: seq<Node>) returns (rank: map<string, nat>)
    requires IsPipeline(g, nodes)
    ensures Ranked(g, rank)
  {
    var at := map x | x in g :: PositionOf(nodes, x);
    rank := at;
    hide PositionOf;
    forall x | x in g ensures Below(g, rank, Needs(g[x]), rank[x]) {
      var names := Needs(g[x]);
      forall i | 0 <= i < |names| ensures names[i] in g && PositionOf(nodes, names[i]) < PositionOf(nodes, x) {
        NeedsHaveSmallerPosition(g, nodes, x, names[i]);
      }
    }
  }

  lemma NeedsHaveSmallerPosition(g: Graph, nodes: seq<Node>, x: string, y: string)
    requires IsPipeline(g, nodes) && x in g && y in Needs(g[x])
    ensures y in g && PositionOf(nodes, y) < PositionOf(nodes, x)
  {
    hide PositionOf;
    hide Needs;
    assert x in Names(nodes);
    PositionIsRight(g, nodes, x);
    var j := PositionOf(nodes, x);
    assert NeedsBefore(nodes, j);
    var i :| 0 <= i < j && Names(nodes)[..j][i] == y;
    assert Names(nodes)[i] == y && nodes[i].refID == y;
    PositionIsRight(g, nodes, y);
    SamePosition(g, nodes, i, PositionOf(nodes, y));
  }

  lemma SamePosition(g: Graph, nodes: seq<Node>, i: nat, j: nat)
    requires IsPipeline(g, nodes) && i < |nodes| && j < |nodes| && nodes[i].refID == nodes[j].refID
    ensures i == j
  {
  }

  ghost function PositionOf(nodes: seq<Node>, x: string): nat
  {
    if x in Names(nodes) then var i: nat :| i < |nodes| && nodes[i].refID == x; i else 0
  }

  lemma PositionIsRight(g: Graph, nodes: seq<Node>, x: string)
    requires IsPipeline(g, nodes) && x in Names(nodes)
    ensures PositionOf(nodes, x) < |nodes| && nodes[PositionOf(nodes, x)] == g[x] && g[x].refID == x
  {
  }

  /**
    Confluence: any two execution orders of one dependency graph succeed together or fail
    together, and on success produce the same results.
  */
  lemma ExecutionIsConfluent(s: Service, g: Graph, nodes: seq<Node>, nodes': seq<Node>)
    requires ServiceOk(s) && GraphOk(g) && IsPipeline(g, nodes) && IsPipeline(g, nodes')
    ensures RunPipeline(s, nodes).Ok? <==> RunPipeline(s, nodes').Ok?
    ensures RunPipeline(s, nodes).Ok? ==> RunPipeline(s, nodes).value == RunPipeline(s, nodes').value
  {
    hide Meaning;
    hide RunPipeline;
    hide IsPipeline;
    var rank := PipelineRanks(g, nodes);
    ExecutionIsMeaning(s, g, rank, nodes);
    ExecutionIsMeaning(s, g, rank, nodes');
  }

  /** Without unique refIDs the order shows: two queries under one name, and the later one wins. */
  lemma DuplicateNamesAreNotConfluent(s: Service, q1: string, q2: string, r1: Results, r2: Results)
    requires s.query(q1) == Ok(r1) && s.query(q2) == Ok(r2) && r1 != r2
    ensures RunPipeline(s, [DsNode("A", q1), DsNode("A", q2)]) != RunPipeline(s, [DsNode("A", q2), DsNode("A", q1)])
  {
    DuplicateKeepsLast(s, q1, q2, r1, r2);
    DuplicateKeepsLast(s, q2, q1, r2, r1);
  }

  lemma DuplicateKeepsLast(s: Service, q1: string, q2: string, r1: Results, r2: Results)
    requires s.query(q1) == Ok(r1) && s.query(q2) == Ok(r2)
    ensures
      var r := RunPipeline(s, [DsNode("A", q1), DsNode("A", q2)]);
      r.Ok? && "A" in r.value && r.value["A"] == r2
  {
    var a, b := DsNode("A", q1), DsNode("A", q2);
    assert [a, b][..1] == [a] && [a][..0] == [];
    assert RunPipeline(s, []) == Ok(map[]);
    assert RunPipeline(s, [a]).Ok?;
  }
}
