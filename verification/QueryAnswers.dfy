/**
  What a request is answered with, in terms of its queries: the results are the one solution of
  the equations that the queries write down, one equation per query. A query whose uid asks for
  an expression equates its result with its command executed on the results; any other query,
  with what the datasource answers to its request.
*/
module QueryAnswers {
  import opened Wrappers
  import opened MathValues
  import opened Commands
  import opened CommandMeaning
  import opened Execution
  import opened Building
  import opened Transform

  /** The query is an expression, under either uid. */
  predicate AsksForCommand(q: Query)
  {
    q.uid == Some("__expr__") || q.uid == Some("-100")
  }

  predicate AsksForClassic(q: Query)
  {
    AsksForCommand(q) && q.command.Ok? && q.command.value.ClassicConditions?
  }

  ghost predicate Asked(queries: seq<Query>, x: string)
  {
    exists i :: 0 <= i < |queries| && queries[i].refID == x
  }

  /** One request name for one query, and commands as their decoders make them. */
  ghost predicate Distinguished(queries: seq<Query>)
  {
    && (forall i, j | 0 <= i < j < |queries| :: queries[i].refID != queries[j].refID)
    && (forall i | 0 <= i < |queries| && AsksForCommand(queries[i]) && queries[i].command.Ok? :: Honest(queries[i].command.value))
  }

  // ------------------------------------------------------------------- schedule

  /** The `j`-th query can serve what the `i`-th mentions as `x`. */
  ghost predicate Serves(queries: seq<Query>, rank: map<string, nat>, i: nat, j: nat, x: string)
    requires i < |queries|
  {
    && j < |queries| && queries[j].refID == x
    && x in rank && queries[i].refID in rank && rank[x] < rank[queries[i].refID]
    && !AsksForClassic(queries[j])
    && (AsksForClassic(queries[i]) ==> !AsksForCommand(queries[j]))
  }

  ghost predicate Served(queries: seq<Query>, rank: map<string, nat>, i: nat)
    requires i < |queries|
  {
    AsksForCommand(queries[i]) && queries[i].command.Ok? ==>
      forall x | Mentions(queries[i].command.value, x) :: exists j :: Serves(queries, rank, i, j, x)
  }

  /** The rank climbs from every mentioned query to the query that mentions it. */
  ghost predicate Schedules(queries: seq<Query>, rank: map<string, nat>)
  {
    && (forall x :: x in rank <==> Asked(queries, x))
    && forall i: nat | i < |queries| :: Served(queries, rank, i)
  }

  ghost predicate Schedulable(queries: seq<Query>)
  {
    exists rank :: Schedules(queries, rank)
  }

  lemma NodeNeeds(q: Query, n: Node, x: string)
    requires Represents(n, q) && (AsksForCommand(q) ==> Honest(q.command.value))
    ensures x in Needs(n) <==> AsksForCommand(q) && Mentions(q.command.value, x)
    ensures n.refID == q.refID && HonestNode(n) && (n.DsNode? <==> !AsksForCommand(q)) && (IsClassic(n) <==> AsksForClassic(q))
  {
    if AsksForCommand(q) {
      NeedsAreMentions(q.command.value, x);
    }
  }

  /** The graph of a request that decodes, query by query. */
  ghost predicate Reflects(queries: seq<Query>, g: Graph)
  {
    && (forall i | 0 <= i < |queries| :: queries[i].refID in g && Represents(g[queries[i].refID], queries[i]))
    && (forall x | x in g :: Asked(queries, x))
  }

  ghost predicate AllDecode(queries: seq<Query>)
  {
    forall i | 0 <= i < |queries| :: Decodes(queries[i])
  }

  lemma GraphReflects(queries: seq<Query>)
    requires Distinguished(queries) && AllDecode(queries)
    ensures WellFormed(queries) && UniqueNames(NodesOf(queries)) && Proper(queries)
    ensures Reflects(queries, GraphOf(NodesOf(queries))) && GraphOk(GraphOf(NodesOf(queries)))
  {
    hide Represents;
    hide Decodes;
    hide BuildNode;
    hide GraphOf;
    hide Honest;
    NodesRepresent(queries);
    var nodes := NodesOf(queries);
    GraphHolds(nodes);
    forall i | 0 <= i < |nodes| ensures HonestNode(nodes[i]) {
      HonestQuery(queries, i, nodes[i]);
    }
    ProperGraph(queries);
    forall x | x in GraphOf(nodes) ensures Asked(queries, x) {
      var i :| 0 <= i < |nodes| && nodes[i].refID == x;
      assert queries[i].refID == x;
    }
  }

  lemma HonestQuery(queries: seq<Query>, i: nat, n: Node)
    requires Distinguished(queries) && i < |queries| && Represents(n, queries[i])
    ensures HonestNode(n) && (AsksForCommand(queries[i]) ==> Honest(queries[i].command.value))
  {
    hide Honest;
  }

  lemma BuildableIsScheduled(queries: seq<Query>, g: Graph, rank: map<string, nat>)
    requires Distinguished(queries) && Reflects(queries, g) && Buildable(g) && Ranked(g, rank)
    ensures Schedules(queries, rank)
  {
    hide Represents;
    hide Needs;
    hide Mentions;
    hide Honest;
    hide IsClassic;
    forall i: nat | i < |queries| ensures Served(queries, rank, i) {
      var q, n := queries[i], g[queries[i].refID];
      if AsksForCommand(q) && q.command.Ok? {
        forall x | Mentions(q.command.value, x) ensures exists j :: Serves(queries, rank, i, j, x) {
          HonestQuery(queries, i, n);
          NodeNeeds(q, n, x);
          assert ClassicRules(g, n, x);
          assert Below(g, rank, Needs(n), rank[q.refID]);
          var j :| 0 <= j < |queries| && queries[j].refID == x;
          HonestQuery(queries, j, g[x]);
          NodeNeeds(queries[j], g[x], x);
          assert Serves(queries, rank, i, j, x);
        }
      }
    }
  }

  lemma ScheduledNeed(queries: seq<Query>, g: Graph, rank: map<string, nat>, x: string, y: string)
    requires Distinguished(queries) && Reflects(queries, g) && Schedules(queries, rank) && x in g && y in Needs(g[x])
    ensures ClassicRules(g, g[x], y) && x in rank && y in rank && rank[y] < rank[x]
  {
    hide Represents;
    hide Needs;
    hide Mentions;
    hide Honest;
    hide IsClassic;
    var i: nat :| i < |queries| && queries[i].refID == x;
    HonestQuery(queries, i, g[x]);
    NodeNeeds(queries[i], g[x], y);
    assert queries[i].command.Ok? by {
      CommandDecoded(queries[i], g[x]);
    }
    assert Served(queries, rank, i);
    var j: nat :| Serves(queries, rank, i, j, y);
    HonestQuery(queries, j, g[y]);
    NodeNeeds(queries[j], g[y], y);
  }

  lemma CommandDecoded(q: Query, n: Node)
    requires Represents(n, q) && AsksForCommand(q)
    ensures q.command.Ok?
  {
  }

  lemma ScheduledIsBuildable(queries: seq<Query>, g: Graph, rank: map<string, nat>)
    requires Distinguished(queries) && Reflects(queries, g) && Schedules(queries, rank)
    ensures Buildable(g)
  {
    hide Represents;
    hide Needs;
    hide Honest;
    hide ClassicRules;
    hide Served;
    forall x, y | x in g && y in Needs(g[x]) ensures ClassicRules(g, g[x], y) {
      ScheduledNeed(queries, g, rank, x, y);
    }
    forall x | x in g ensures Below(g, rank, Needs(g[x]), rank[x]) {
      var names := Needs(g[x]);
      forall k | 0 <= k < |names| ensures names[k] in g && names[k] in rank && rank[names[k]] < rank[x] {
        ScheduledNeed(queries, g, rank, x, names[k]);
        InGraph(queries, g, rank, names[k]);
      }
    }
    forall x ensures x in rank <==> x in g {
      InGraph(queries, g, rank, x);
    }
    assert rank.Keys == g.Keys;
    assert Ranked(g, rank);
  }

  lemma InGraph(queries: seq<Query>, g: Graph, rank: map<string, nat>, x: string)
    requires Reflects(queries, g) && Schedules(queries, rank)
    ensures x in rank <==> x in g
  {
    hide Represents;
    hide Served;
  }

  // ------------------------------------------------------------------ equations

  /** The equation of one query: what its result must be, given the results of all. */
  predicate Holds(s: Service, q: Query, results: Vars)
  {
    && q.refID in results
    && if AsksForCommand(q) then q.command.Ok? && Execute(s.env, q.command.value, results) == Ok(results[q.refID])
       else q.request.Ok? && s.query(q.request.value) == Ok(results[q.refID])
  }

  /** A result for every query and for nothing else, meeting every equation. */
  ghost predicate Solves(s: Service, queries: seq<Query>, results: Vars)
  {
    && (forall x | x in results :: Asked(queries, x))
    && (forall i | 0 <= i < |queries| :: Holds(s, queries[i], results))
  }

  ghost predicate SolvesGraph(s: Service, g: Graph, results: Vars)
  {
    results.Keys == g.Keys && forall x | x in g :: Exec(s, g[x], results) == Ok(results[x])
  }

  lemma HoldsIsExec(s: Service, q: Query, n: Node, results: Vars)
    requires Represents(n, q) && q.refID in results
    ensures Holds(s, q, results) <==> Exec(s, n, results) == Ok(results[q.refID])
  {
    hide Execute;
  }

  lemma SolvesIsSolvesGraph(s: Service, queries: seq<Query>, g: Graph, results: Vars)
    requires Reflects(queries, g)
    ensures Solves(s, queries, results) <==> SolvesGraph(s, g, results)
  {
    hide Exec;
    hide Represents;
    if Solves(s, queries, results) {
      forall x | x in g ensures x in results && Exec(s, g[x], results) == Ok(results[x]) {
        var i :| 0 <= i < |queries| && queries[i].refID == x;
        assert Holds(s, queries[i], results);
        HoldsIsExec(s, queries[i], g[x], results);
      }
    }
    if SolvesGraph(s, g, results) {
      forall i | 0 <= i < |queries| ensures Holds(s, queries[i], results) {
        HoldsIsExec(s, queries[i], g[queries[i].refID], results);
      }
    }
  }

  /** Where the results of a node's needs are their meanings, the node's meaning is what it computes from the results. */
  lemma ExecOnMeanings(s: Service, g: Graph, rank: map<string, nat>, x: string, results: Vars)
    requires ServiceOk(s) && GraphOk(g) && Ranked(g, rank) && x in g
    requires forall y | y in Needs(g[x]) :: y in g && y in results && Meaning(s, g, rank, y) == Ok(results[y])
    ensures Meaning(s, g, rank, x) == Exec(s, g[x], results)
  {
    hide NeedsVars;
    hide Execute;
    var names := Needs(g[x]);
    assert Below(g, rank, names, rank[x]);
    assert forall i | 0 <= i < |names| :: names[i] in Needs(g[x]);
    MeaningsAre(s, g, rank, names, rank[x], results);
    if g[x].CmdNode? {
      CommandIsLocal(s.env, g[x].cmd, Meanings(s, g, rank, names, rank[x]).value, results);
    }
  }

  /** A solution can be nothing but the meanings, so there is at most one. */
  lemma {:induction false} SolutionIsMeaning(s: Service, g: Graph, rank: map<string, nat>, results: Vars, x: string)
    requires ServiceOk(s) && GraphOk(g) && Ranked(g, rank) && SolvesGraph(s, g, results) && x in g
    ensures Meaning(s, g, rank, x) == Ok(results[x])
    decreases rank[x]
  {
    hide Meaning;
    hide Exec;
    hide Needs;
    assert Below(g, rank, Needs(g[x]), rank[x]);
    forall y | y in Needs(g[x]) ensures y in g && Meaning(s, g, rank, y) == Ok(results[y]) {
      SolutionIsMeaning(s, g, rank, results, y);
    }
    ExecOnMeanings(s, g, rank, x, results);
  }

  /** Where every name has a meaning, the meanings are a solution. */
  lemma MeaningsSolve(s: Service, g: Graph, rank: map<string, nat>) returns (results: Vars)
    requires ServiceOk(s) && GraphOk(g) && Ranked(g, rank) && Evaluates(s, g, rank)
    ensures SolvesGraph(s, g, results)
  {
    hide Meaning;
    hide Exec;
    hide Needs;
    results := map x | x in g :: Meaning(s, g, rank, x).value;
    forall x | x in g ensures Exec(s, g[x], results) == Ok(results[x]) {
      assert Below(g, rank, Needs(g[x]), rank[x]);
      ExecOnMeanings(s, g, rank, x, results);
    }
  }

  lemma AnswerableIsSolvable(s: Service, g: Graph)
    requires ServiceOk(s) && GraphOk(g) && Buildable(g)
    ensures Answerable(s, g) <==> exists results :: SolvesGraph(s, g, results)
  {
    hide Meaning;
    hide Exec;
    hide Ranked;
    if Answerable(s, g) {
      var rank :| Ranked(g, rank);
      assert Evaluates(s, g, rank);
      var results := MeaningsSolve(s, g, rank);
    }
    if results :| SolvesGraph(s, g, results) {
      forall rank | Ranked(g, rank) ensures Evaluates(s, g, rank) {
        forall x | x in g ensures Meaning(s, g, rank, x).Ok? {
          SolutionIsMeaning(s, g, rank, results, x);
        }
      }
    }
  }

  // ------------------------------------------------------------------- answers

  /** Whatever the names: a request with a query that does not decode is refused. */
  lemma AnsweredQueriesDecode(s: Service, queries: seq<Query>, registry: map<string, nat>, order: seq<nat>, r: Result<Vars>)
    requires Answers(s, queries, registry, order, r)
    ensures r.Ok? ==> forall i | 0 <= i < |queries| :: Decodes(queries[i])
  {
    hide BuildNode;
    hide RunPipeline;
    NodesRepresent(queries);
  }

  /** The visible part of the results, by the hide flags. */
  ghost predicate ShowsVisible(queries: seq<Query>, results: Vars, response: Vars)
  {
    && (forall x :: x in response <==>
          x in results && !exists i :: 0 <= i < |queries| && queries[i].refID == x && queries[i].hide == Ok(true))
    && (forall x | x in response :: response[x] == results[x])
  }

  /**
    A request is answered if and only if all its queries and hide flags decode, what the commands
    mention can be served in some order, and the equations have a solution. The solution is then
    unique, and the answer is its visible part.
  */
  lemma AnswerIsTheSolution(s: Service, queries: seq<Query>, registry: map<string, nat>, order: seq<nat>, r: Result<Vars>)
    requires ServiceOk(s) && Distinguished(queries) && Answers(s, queries, registry, order, r)
    ensures r.Ok? <==>
      && (forall i | 0 <= i < |queries| :: Decodes(queries[i]) && queries[i].hide.Ok?)
      && Schedulable(queries)
      && exists results :: Solves(s, queries, results)
    ensures r.Ok? ==> forall results | Solves(s, queries, results) :: ShowsVisible(queries, results, r.value)
  {
    hide Answers;
    hide Solves;
    hide Ranked;
    hide Decodes;
    hide GraphOf;
    hide Schedules;
    if AllDecode(queries) {
      GraphReflects(queries);
      var g := GraphOf(NodesOf(queries));
      AnsweredIff(s, queries, registry, order, r);
      ScheduleIff(queries, g);
      forall results ensures Solves(s, queries, results) <==> SolvesGraph(s, g, results) {
        SolvesIsSolvesGraph(s, queries, g, results);
      }
      if Buildable(g) {
        AnswerableIsSolvable(s, g);
      }
      if r.Ok? {
        var rank :| Ranked(g, rank);
        VisibleSolution(s, queries, registry, order, r, rank);
      }
    } else {
      AnsweredQueriesDecode(s, queries, registry, order, r);
    }
  }

  lemma ScheduleIff(queries: seq<Query>, g: Graph)
    requires Distinguished(queries) && Reflects(queries, g)
    ensures Schedulable(queries) <==> Buildable(g)
  {
    hide Reflects;
    hide Schedules;
    hide Ranked;
    if rank :| Schedules(queries, rank) {
      ScheduledIsBuildable(queries, g, rank);
    }
    if Buildable(g) {
      var rank :| Ranked(g, rank);
      BuildableIsScheduled(queries, g, rank);
    }
  }

  /** What BuildPipeline accepts, which its contract puts in terms of the graph, in terms of the queries. */
  lemma PipelineIffSchedulable(queries: seq<Query>)
    requires Distinguished(queries)
    ensures (forall i | 0 <= i < |queries| :: Decodes(queries[i])) && Schedulable(queries) <==>
      WellFormed(queries) && Buildable(GraphOf(NodesOf(queries)))
    ensures WellFormed(queries) ==> UniqueNames(NodesOf(queries))
  {
    hide Decodes;
    hide Schedulable;
    hide Buildable;
    hide BuildNode;
    hide GraphOf;
    NodesRepresent(queries);
    if AllDecode(queries) {
      GraphReflects(queries);
      ScheduleIff(queries, GraphOf(NodesOf(queries)));
    }
  }

  lemma VisibleSolution(s: Service, queries: seq<Query>, registry: map<string, nat>, order: seq<nat>, r: Result<Vars>,
                        rank: map<string, nat>)
    requires ServiceOk(s) && Distinguished(queries) && AllDecode(queries) && Answers(s, queries, registry, order, r) && r.Ok?
    requires Ranked(GraphOf(NodesOf(queries)), rank)
    ensures forall results | SolvesGraph(s, GraphOf(NodesOf(queries)), results) :: ShowsVisible(queries, results, r.value)
  {
    hide Answers;
    hide Meaning;
    hide Distinguished;
    hide Represents;
    hide Proper;
    hide GraphOk;
    hide Decodes;
    hide Ranked;
    hide Exec;
    hide GraphOf;
    var g := GraphOf(NodesOf(queries));
    GraphReflects(queries);
    AnswerIsMeaning(s, queries, registry, order, r, rank);
    forall results | SolvesGraph(s, g, results) ensures ShowsVisible(queries, results, r.value) {
      forall x | x in g ensures Meaning(s, g, rank, x) == Ok(results[x]) {
        SolutionIsMeaning(s, g, rank, results, x);
      }
    }
  }
}
