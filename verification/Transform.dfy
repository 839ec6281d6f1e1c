/**
  Answering a request: build the pipeline, execute all of it, and leave the results of hidden
  queries out of the response.
*/
module Transform {
  import opened Wrappers
  import opened MathValues
  import opened Execution
  import opened Building

  predicate HidesDecode(queries: seq<Query>)
  {
    forall i | 0 <= i < |queries| :: queries[i].hide.Ok?
  }

  ghost predicate Hidden(queries: seq<Query>, x: string)
  {
    exists i :: 0 <= i < |queries| && queries[i].refID == x && queries[i].hide == Ok(true)
  }

  method HiddenRefIDs(queries: seq<Query>) returns (r: Result<set<string>>)
    ensures r.Ok? <==> HidesDecode(queries)
    ensures r.Ok? ==> forall x :: x in r.value <==> Hidden(queries, x)
  {
    var hidden: set<string> := {};
    for i := 0 to |queries|
      invariant forall j | 0 <= j < i :: queries[j].hide.Ok?
      invariant forall x :: x in hidden <==> exists j :: 0 <= j < i && queries[j].refID == x && queries[j].hide == Ok(true)
    {
      if queries[i].hide.Err? {
        return Err(queries[i].hide.message);
      }
      if queries[i].hide.value {
        hidden := hidden + {queries[i].refID};
      }
    }
    return Ok(hidden);
  }

  /** The response shows exactly the results that are not hidden, unchanged. */
  ghost predicate Shows(queries: seq<Query>, vars: Vars, response: Vars)
  {
    && (forall x :: x in response <==> x in vars && !Hidden(queries, x))
    && (forall x | x in response :: response[x] == vars[x])
  }

  method Filter(responses: Vars, hidden: set<string>) returns (filtered: Vars)
    ensures forall x :: x in filtered <==> x in responses && x !in hidden
    ensures forall x | x in filtered :: filtered[x] == responses[x]
  {
    filtered := map[];
    var todo := responses.Keys;
    while todo != {}
      invariant todo <= responses.Keys
      invariant forall x :: x in filtered <==> x in responses && x !in hidden && x !in todo
      invariant forall x | x in filtered :: filtered[x] == responses[x]
      decreases |todo|
    {
      var x :| x in todo;
      if x !in hidden {
        filtered := filtered[x := responses[x]];
      }
      todo := todo - {x};
    }
  }

  /** What a run of TransformData with this registry and this execution order may answer. */
  ghost predicate Answers(s: Service, queries: seq<Query>, registry: map<string, nat>, order: seq<nat>, r: Result<Vars>)
  {
    if !WellFormed(queries) then r.Err?
    else
      var nodes := NodesOf(queries);
      && IsRegistry(nodes, registry)
      && if !AllEdgesOk(nodes, registry) || Cyclical(nodes, registry) then r.Err?
         else
           && IsExecutionOrder(nodes, registry, order)
           && RunAnswers(queries, RunPipeline(s, Pick(nodes, order)), r)
  }

  ghost predicate RunAnswers(queries: seq<Query>, run: Result<Vars>, r: Result<Vars>)
  {
    (r.Ok? <==> run.Ok? && HidesDecode(queries)) && (r.Ok? ==> Shows(queries, run.value, r.value))
  }

  method TransformData(s: Service, disabled: bool, queries: seq<Query>)
    returns (r: Result<Vars>, ghost registry: map<string, nat>, ghost order: seq<nat>)
    ensures disabled ==> r.Err?
    ensures !disabled ==> Answers(s, queries, registry, order, r)
  {
    registry, order := map[], [];
    if disabled {
      return Err("server side expressions are disabled"), registry, order;
    }
    var pipeline;
    pipeline, registry, order := BuildPipeline(queries);
    if pipeline.Err? {
      return Err(pipeline.message), registry, order;
    }
    var responses := Execution.ExecutePipeline(s, pipeline.value);
    if responses.Err? {
      return Err(responses.message), registry, order;
    }
    var hidden := HiddenRefIDs(queries);
    if hidden.Err? {
      return Err(hidden.message), registry, order;
    }
    var shown := responses.value;
    if hidden.value != {} {
      shown := Filter(shown, hidden.value);
    } else {
      assert forall x :: !Hidden(queries, x) by {
        assert forall x :: x in hidden.value <==> Hidden(queries, x);
      }
    }
    return Ok(shown), registry, order;
  }

  // -------------------------------------------------------------- non-interference

  /** The two requests differ in nothing but hide flags. */
  ghost predicate SameButHide(q: seq<Query>, q': seq<Query>)
  {
    |q| == |q'| && forall i | 0 <= i < |q| :: q'[i] == q[i].(hide := q'[i].hide)
  }

  lemma SameNodes(q: seq<Query>, q': seq<Query>)
    requires SameButHide(q, q')
    ensures WellFormed(q) <==> WellFormed(q')
    ensures WellFormed(q) ==> NodesOf(q) == NodesOf(q')
  {
    forall i | 0 <= i < |q| ensures BuildNode(q[i]) == BuildNode(q'[i]) {
      assert q'[i] == q[i].(hide := q'[i].hide);
    }
    if WellFormed(q) {
      assert forall i | 0 <= i < |q| :: Ok(NodesOf(q)[i]) == BuildNode(q[i]) == Ok(NodesOf(q')[i]);
    }
  }

  /** A request as the scheduler wants it: refIDs are unique and every command is honest. */
  ghost predicate Proper(queries: seq<Query>)
  {
    WellFormed(queries) ==>
      UniqueNames(NodesOf(queries)) && forall i | 0 <= i < |NodesOf(queries)| :: HonestNode(NodesOf(queries)[i])
  }

  lemma ProperGraph(queries: seq<Query>)
    requires WellFormed(queries) && Proper(queries)
    ensures GraphOk(GraphOf(NodesOf(queries)))
  {
    var nodes := NodesOf(queries);
    GraphHolds(nodes);
    forall x | x in GraphOf(nodes) ensures GraphOf(nodes)[x].refID == x && HonestNode(GraphOf(nodes)[x]) {
      var i :| 0 <= i < |nodes| && nodes[i].refID == x;
    }
  }

  /** Two runs on the same nodes, however they are ordered, agree on success and on every result. */
  lemma RunsAgree(s: Service, nodes: seq<Node>, registry: map<string, nat>, order: seq<nat>,
                  registry': map<string, nat>, order': seq<nat>)
    requires ServiceOk(s) && UniqueNames(nodes) && GraphOk(GraphOf(nodes))
    requires IsRegistry(nodes, registry) && AllEdgesOk(nodes, registry) && IsExecutionOrder(nodes, registry, order)
    requires IsRegistry(nodes, registry') && AllEdgesOk(nodes, registry') && IsExecutionOrder(nodes, registry', order')
    ensures
      var run, run' := RunPipeline(s, Pick(nodes, order)), RunPipeline(s, Pick(nodes, order'));
      (run.Ok? <==> run'.Ok?) && (run.Ok? ==> run.value == run'.value)
  {
    hide IsPipeline;
    BuiltIsPipeline(nodes, registry, order);
    BuiltIsPipeline(nodes, registry', order');
    ExecutionIsConfluent(s, GraphOf(nodes), Pick(nodes, order), Pick(nodes, order'));
  }

  /**
    Hiding is only presentation: changing hide flags changes neither whether the request
    succeeds nor the result of any query that is visible both times. A result is present
    exactly when its query is not hidden.
  */
  lemma HideNonInterference(s: Service, q: seq<Query>, registry: map<string, nat>, order: seq<nat>, r: Result<Vars>,
                            q': seq<Query>, registry': map<string, nat>, order': seq<nat>, r': Result<Vars>)
    requires ServiceOk(s) && Proper(q) && SameButHide(q, q') && HidesDecode(q) && HidesDecode(q')
    requires Answers(s, q, registry, order, r) && Answers(s, q', registry', order', r')
    ensures r.Ok? <==> r'.Ok?
    ensures r.Ok? ==> forall x | !Hidden(q, x) && !Hidden(q', x) ::
      (x in r.value <==> x in r'.value) && (x in r.value ==> r.value[x] == r'.value[x])
  {
    hide RunPipeline;
    hide GraphOf;
    SameNodes(q, q');
    if WellFormed(q) {
      var nodes := NodesOf(q);
      RegistryIsUnique(nodes, registry, registry');
      if AllEdgesOk(nodes, registry) && !Cyclical(nodes, registry) {
        ProperGraph(q);
        RunsAgree(s, nodes, registry, order, registry', order');
      }
    }
  }

  /** Every refID of the graph has a value. */
  ghost predicate Evaluates(s: Service, g: Graph, rank: map<string, nat>)
    requires Ranked(g, rank)
  {
    forall x | x in g :: Meaning(s, g, rank, x).Ok?
  }

  /** The graph can be scheduled and evaluated; by which rank does not matter. */
  ghost predicate Answerable(s: Service, g: Graph)
  {
    Buildable(g) && forall rank | Ranked(g, rank) :: Evaluates(s, g, rank)
  }

  lemma RunIsAnswerable(s: Service, nodes: seq<Node>, registry: map<string, nat>, order: seq<nat>)
    requires ServiceOk(s) && UniqueNames(nodes) && GraphOk(GraphOf(nodes))
    requires IsRegistry(nodes, registry) && AllEdgesOk(nodes, registry) && IsExecutionOrder(nodes, registry, order)
    ensures RunPipeline(s, Pick(nodes, order)).Ok? <==> Answerable(s, GraphOf(nodes))
  {
    hide RunPipeline;
    hide GraphOf;
    hide Meaning;
    hide GraphOk;
    var g, picked := GraphOf(nodes), Pick(nodes, order);
    AcceptedIsBuildable(nodes, registry, order);
    BuiltIsPipeline(nodes, registry, order);
    hide IsPipeline;
    hide IsExecutionOrder;
    forall rank | Ranked(g, rank) ensures RunPipeline(s, picked).Ok? <==> Evaluates(s, g, rank) {
      ExecutionIsMeaning(s, g, rank, picked);
    }
    var rank := PipelineRanks(g, picked);
  }

  /**
    A request is answered if and only if its queries and hide flags decode, its dependency graph
    can be scheduled, and recursive evaluation gives every refID a value.
  */
  lemma AnsweredIff(s: Service, q: seq<Query>, registry: map<string, nat>, order: seq<nat>, r: Result<Vars>)
    requires ServiceOk(s) && Proper(q) && Answers(s, q, registry, order, r)
    ensures r.Ok? <==> WellFormed(q) && HidesDecode(q) && Answerable(s, GraphOf(NodesOf(q)))
  {
    hide RunPipeline;
    hide GraphOf;
    hide Answerable;
    if WellFormed(q) {
      var nodes := NodesOf(q);
      ProperGraph(q);
      if AllEdgesOk(nodes, registry) && !Cyclical(nodes, registry) {
        RunIsAnswerable(s, nodes, registry, order);
      } else if Answerable(s, GraphOf(nodes)) {
        AnswerableIsAccepted(s, nodes, registry);
      }
    }
  }

  lemma AnswerableIsAccepted(s: Service, nodes: seq<Node>, registry: map<string, nat>)
    requires UniqueNames(nodes) && IsRegistry(nodes, registry) && Answerable(s, GraphOf(nodes))
    ensures AllEdgesOk(nodes, registry) && !Cyclical(nodes, registry)
  {
    BuildableIsAccepted(nodes, registry);
  }

  /**
    What a request is answered with: for every query that is not hidden, the value that recursive
    evaluation over the dependency graph gives it; and nothing for hidden queries.
  */
  lemma AnswerIsMeaning(s: Service, q: seq<Query>, registry: map<string, nat>, order: seq<nat>, r: Result<Vars>,
                        rank: map<string, nat>)
    requires ServiceOk(s) && Proper(q) && Answers(s, q, registry, order, r)
    requires WellFormed(q) ==> Ranked(GraphOf(NodesOf(q)), rank)
    ensures r.Ok? ==>
      var g := GraphOf(NodesOf(q));
      forall x :: (x in r.value <==> x in g && !Hidden(q, x)) && (x in r.value ==> Meaning(s, g, rank, x) == Ok(r.value[x]))
  {
    hide RunPipeline;
    hide GraphOf;
    hide Meaning;
    if r.Ok? {
      var nodes := NodesOf(q);
      ProperGraph(q);
      BuiltIsPipeline(nodes, registry, order);
      hide IsPipeline;
      ExecutionIsMeaning(s, GraphOf(nodes), rank, Pick(nodes, order));
    }
  }
}
