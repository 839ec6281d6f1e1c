/**
  The expression commands: which variables each declares and what it computes from them.
  A node's result may depend on nothing but the variables the command declares; that is what
  lets the scheduler treat the declarations as the graph's edges.
*/
module Commands {
  import opened Wrappers
  import opened MathValues
  import opened MathLexer
  import opened MathParser
  import opened MathEval
  import opened ThresholdText
  import opened Threshold

  datatype Evaluator =
    | GreaterThan(c: real) | LessThan(c: real)
    | Within(lo: real, hi: real) | Outside(lo: real, hi: real)
    | NoValue

  datatype ClassicCondition = ClassicCondition(input: string, reducer: string, evaluator: Evaluator, isOr: bool)

  datatype Command =
    | MathCommand(refID: string, tree: Tree)
    | ReduceCommand(refID: string, reducer: string, mapper: string, input: string)
    | ResampleCommand(refID: string, parameters: string, input: string)
    | ThresholdCommand(refID: string, input: string, f: ThresholdFunc, args: seq<real>)
    | ClassicConditions(refID: string, conditions: seq<ClassicCondition>)

  // ---------------------------------------------------------------- NeedsVars

  function Inputs(conditions: seq<ClassicCondition>): (r: seq<string>)
    ensures |r| == |conditions| && forall i | 0 <= i < |r| :: r[i] == conditions[i].input
  {
    seq(|conditions|, i requires 0 <= i < |conditions| => conditions[i].input)
  }

  function NeedsVars(cmd: Command): seq<string>
  {
    match cmd
    case MathCommand(_, tree) => tree.varNames
    case ReduceCommand(_, _, _, input) => [input]
    case ResampleCommand(_, _, input) => [input]
    case ThresholdCommand(_, input, _, _) => [input]
    case ClassicConditions(_, conditions) => Inputs(conditions)
  }

  // ---------------------------------------------------------- reduce, resample

  function ReduceValue(lib: Library, refID: string, reducer: string, mapper: string, v: Value): Result<Value>
  {
    match v
    case Series(_, _, _) => lib.reduce(refID, reducer, mapper, v)
    case Number(_, labels, x) => Ok(Number(refID, labels, x))
    case NoData => Ok(NoData)
    case Scalar(_, _) => Err("can only reduce type series")
  }

  function ReduceAll(lib: Library, refID: string, reducer: string, mapper: string, vs: Results): Result<Results>
  {
    if vs == [] then Ok([])
    else
      var rest := ReduceAll(lib, refID, reducer, mapper, vs[..|vs| - 1]);
      if rest.Err? then rest
      else
        var v := ReduceValue(lib, refID, reducer, mapper, vs[|vs| - 1]);
        if v.Err? then Err(v.message) else Ok(rest.value + [v.value])
  }

  function ResampleValue(lib: Library, refID: string, parameters: string, v: Value): Result<Value>
  {
    if v.Series? then lib.resample(refID, parameters, v) else Err("can only resample type series")
  }

  function ResampleAll(lib: Library, refID: string, parameters: string, vs: Results): Result<Results>
  {
    if vs == [] then Ok([])
    else
      var rest := ResampleAll(lib, refID, parameters, vs[..|vs| - 1]);
      if rest.Err? then rest
      else
        var v := ResampleValue(lib, refID, parameters, vs[|vs| - 1]);
        if v.Err? then Err(v.message) else Ok(rest.value + [v.value])
  }

  lemma {:induction false} ReduceStopsAtError(lib: Library, refID: string, reducer: string, mapper: string, vs: Results, n: nat)
    requires n <= |vs| && ReduceAll(lib, refID, reducer, mapper, vs[..n]).Err?
    ensures ReduceAll(lib, refID, reducer, mapper, vs) == ReduceAll(lib, refID, reducer, mapper, vs[..n])
  {
    if n == |vs| {
      assert vs[..n] == vs;
    } else {
      assert vs[..|vs| - 1][..n] == vs[..n];
      ReduceStopsAtError(lib, refID, reducer, mapper, vs[..|vs| - 1], n);
    }
  }

  /** The loop of ReduceCommand.Execute: each value reduced in its place, or the error of the first that cannot be. */
  method ExecuteReduce(lib: Library, cmd: Command, vars: Vars) returns (r: Result<Results>)
    requires cmd.ReduceCommand?
    ensures r == ReduceAll(lib, cmd.refID, cmd.reducer, cmd.mapper, Lookup(vars, cmd.input))
    ensures r.Ok? ==>
      var vs := Lookup(vars, cmd.input);
      |r.value| == |vs| && forall i | 0 <= i < |vs| :: ReduceValue(lib, cmd.refID, cmd.reducer, cmd.mapper, vs[i]) == Ok(r.value[i])
    ensures r.Err? ==>
      var vs := Lookup(vars, cmd.input);
      exists i :: 0 <= i < |vs| && ReduceValue(lib, cmd.refID, cmd.reducer, cmd.mapper, vs[i]) == Err(r.message) &&
        forall j | 0 <= j < i :: ReduceValue(lib, cmd.refID, cmd.reducer, cmd.mapper, vs[j]).Ok?
  {
    var vs := Lookup(vars, cmd.input);
    var out: Results := [];
    for i := 0 to |vs|
      invariant ReduceAll(lib, cmd.refID, cmd.reducer, cmd.mapper, vs[..i]) == Ok(out) && |out| == i
      invariant forall j | 0 <= j < i :: ReduceValue(lib, cmd.refID, cmd.reducer, cmd.mapper, vs[j]) == Ok(out[j])
    {
      assert vs[..i + 1][..i] == vs[..i];
      var v := ReduceValue(lib, cmd.refID, cmd.reducer, cmd.mapper, vs[i]);
      if v.Err? {
        ReduceStopsAtError(lib, cmd.refID, cmd.reducer, cmd.mapper, vs, i + 1);
        return Err(v.message);
      }
      out := out + [v.value];
    }
    assert vs[..|vs|] == vs;
    return Ok(out);
  }

  lemma {:induction false} ResampleStopsAtError(lib: Library, refID: string, parameters: string, vs: Results, n: nat)
    requires n <= |vs| && ResampleAll(lib, refID, parameters, vs[..n]).Err?
    ensures ResampleAll(lib, refID, parameters, vs) == ResampleAll(lib, refID, parameters, vs[..n])
  {
    if n == |vs| {
      assert vs[..n] == vs;
    } else {
      assert vs[..|vs| - 1][..n] == vs[..n];
      ResampleStopsAtError(lib, refID, parameters, vs[..|vs| - 1], n);
    }
  }

  /** The loop of ResampleCommand.Execute; anything but a series is such an error. */
  method ExecuteResample(lib: Library, cmd: Command, vars: Vars) returns (r: Result<Results>)
    requires cmd.ResampleCommand?
    ensures r == ResampleAll(lib, cmd.refID, cmd.parameters, Lookup(vars, cmd.input))
    ensures r.Ok? ==>
      var vs := Lookup(vars, cmd.input);
      |r.value| == |vs| && forall i | 0 <= i < |vs| :: ResampleValue(lib, cmd.refID, cmd.parameters, vs[i]) == Ok(r.value[i])
    ensures r.Err? ==>
      var vs := Lookup(vars, cmd.input);
      exists i :: 0 <= i < |vs| && ResampleValue(lib, cmd.refID, cmd.parameters, vs[i]) == Err(r.message) &&
        forall j | 0 <= j < i :: ResampleValue(lib, cmd.refID, cmd.parameters, vs[j]).Ok?
  {
    var vs := Lookup(vars, cmd.input);
    var out: Results := [];
    for i := 0 to |vs|
      invariant ResampleAll(lib, cmd.refID, cmd.parameters, vs[..i]) == Ok(out) && |out| == i
      invariant forall j | 0 <= j < i :: ResampleValue(lib, cmd.refID, cmd.parameters, vs[j]) == Ok(out[j])
    {
      assert vs[..i + 1][..i] == vs[..i];
      var v := ResampleValue(lib, cmd.refID, cmd.parameters, vs[i]);
      if v.Err? {
        ResampleStopsAtError(lib, cmd.refID, cmd.parameters, vs, i + 1);
        return Err(v.message);
      }
      out := out + [v.value];
    }
    assert vs[..|vs|] == vs;
    return Ok(out);
  }

  // -------------------------------------------------------- classic conditions

  predicate Fires(e: Evaluator, v: Option<Float>)
  {
    match e
    case NoValue => v.None?
    case GreaterThan(c) => v.Some? && Less(Fin(c), v.value)
    case LessThan(c) => v.Some? && Less(v.value, Fin(c))
    case Within(lo, hi) =>
      v.Some? && ((Less(Fin(lo), v.value) && Less(v.value, Fin(hi))) || (Less(Fin(hi), v.value) && Less(v.value, Fin(lo))))
    case Outside(lo, hi) =>
      v.Some? && ((Less(Fin(hi), v.value) && Less(Fin(lo), v.value)) || (Less(v.value, Fin(hi)) && Less(v.value, Fin(lo))))
  }

  /** Counting over the values of one input: how many are null, how many fire. */
  datatype Tally = Tally(nulls: nat, firing: nat)

  function TallyOf(lib: Library, c: ClassicCondition, vs: Results): Result<Tally>
  {
    if vs == [] then Ok(Tally(0, 0))
    else
      var rest, v := TallyOf(lib, c, vs[..|vs| - 1]), vs[|vs| - 1];
      if rest.Err? then rest
      else if v.Scalar? then Err("can only reduce type series")
      else
        var reduced := match v case NoData => None case Number(_, _, x) => x case _ => lib.classicReduce(c.reducer, v);
        Ok(Tally(rest.value.nulls + (if reduced.None? then 1 else 0),
                 rest.value.firing + (if Fires(c.evaluator, reduced) then 1 else 0)))
  }

  datatype Outcome = Outcome(firing: bool, noData: bool)

  /** The conditions fold left to right, each with its own operator and no precedence. */
  function Fold(lib: Library, conditions: seq<ClassicCondition>, vars: Vars): Result<Outcome>
  {
    if conditions == [] then Ok(Outcome(true, true))
    else
      var n := |conditions| - 1;
      var c := conditions[n];
      var before := Fold(lib, conditions[..n], vars);
      if before.Err? then before
      else
        var tally := TallyOf(lib, c, Lookup(vars, c.input));
        if tally.Err? then Err(tally.message)
        else
          var firing := tally.value.firing > 0;
          var noData := |Lookup(vars, c.input)| == tally.value.nulls;
          var b := if n == 0 then Outcome(firing, noData) else before.value;
          var joined := if c.isOr then Outcome(b.firing || firing, b.noData || noData)
                        else Outcome(b.firing && firing, b.noData && noData);
          Ok(if noData then joined.(noData := true) else joined)
  }

  function ClassicResult(o: Outcome): Results
  {
    [Number("", map[], if o.noData then None else Some(Truth(o.firing)))]
  }

  // ------------------------------------------------------------------ execution

  function Execute(env: Env, cmd: Command, vars: Vars): Result<Results>
  {
    match cmd
    case MathCommand(refID, tree) => Walk(env.lib, refID, vars, tree.root)
    case ReduceCommand(refID, reducer, mapper, input) => ReduceAll(env.lib, refID, reducer, mapper, Lookup(vars, input))
    case ResampleCommand(refID, parameters, input) => ResampleAll(env.lib, refID, parameters, Lookup(vars, input))
    case ThresholdCommand(_, input, f, args) => ThresholdExecute(env, input, f, args, vars)
    case ClassicConditions(_, conditions) =>
      var o := Fold(env.lib, conditions, vars);
      if o.Err? then Err(o.message) else Ok(ClassicResult(o.value))
  }

  // ------------------------------------------------------------------- locality

  /** What command construction guarantees, and the one name a threshold must not be given. */
  predicate Honest(cmd: Command)
  {
    && (cmd.MathCommand? ==> cmd.tree.varNames == VarsOf(cmd.tree.root))
    && (cmd.ThresholdCommand? ==> '}' !in cmd.input)
  }

  /** A math command made from text declares exactly what its tree mentions. */
  lemma ParsedMathIsHonest(env: Env, refID: string, text: string)
    ensures
      var tree := Parse(env.classes, env.grammar, text);
      tree.Some? ==> Honest(MathCommand(refID, tree.value))
  {
    hide Lex;
    hide ParseLevel;
  }

  lemma {:induction false} FoldIsLocal(lib: Library, conditions: seq<ClassicCondition>, vars: Vars, vars': Vars)
    requires AgreeOn(vars, vars', Inputs(conditions))
    ensures Fold(lib, conditions, vars) == Fold(lib, conditions, vars')
  {
    if conditions != [] {
      var n := |conditions| - 1;
      forall i | 0 <= i < n ensures Lookup(vars, Inputs(conditions[..n])[i]) == Lookup(vars', Inputs(conditions[..n])[i]) {
        assert Inputs(conditions)[i] == conditions[..n][i].input;
      }
      FoldIsLocal(lib, conditions[..n], vars, vars');
      assert Inputs(conditions)[n] == conditions[n].input;
    }
  }

  /** Every honest command computes its result from its declared variables alone. */
  lemma CommandIsLocal(env: Env, cmd: Command, vars: Vars, vars': Vars)
    requires Unicode(env.classes) && Honest(cmd) && AgreeOn(vars, vars', NeedsVars(cmd))
    ensures Execute(env, cmd, vars) == Execute(env, cmd, vars')
  {
    match cmd {
      case MathCommand(refID, tree) => WalkIsLocal(env.lib, refID, vars, vars', tree.root);
      case ReduceCommand(_, _, _, input) => assert NeedsVars(cmd)[0] == input;
      case ResampleCommand(_, _, input) => assert NeedsVars(cmd)[0] == input;
      case ThresholdCommand(_, input, f, args) =>
        assert NeedsVars(cmd)[0] == input;
        ThresholdIsLocal(env, input, f, args, vars, vars');
      case ClassicConditions(_, conditions) => FoldIsLocal(env.lib, conditions, vars, vars');
    }
  }
}
