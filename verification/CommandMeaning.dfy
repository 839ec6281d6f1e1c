/**
  What the commands wait for and compute, command by command: the variables that stand in their
  text or settings, and classic conditions in closed form.
*/
module CommandMeaning {
  import opened Wrappers
  import opened MathValues
  import opened MathParser
  import opened Threshold
  import opened Commands

  // ------------------------------------------------------------------- mentions

  /** The variable stands somewhere in the tree. */
  ghost predicate Occurs(x: string, n: Node)
  {
    match n
    case ScalarNode(_) => false
    case StringNode(_) => false
    case VarNode(name) => name == x
    case UnaryNode(_, a) => Occurs(x, a)
    case BinaryNode(_, a, b) => Occurs(x, a) || Occurs(x, b)
    case FuncNode(_, _, args) => exists i :: 0 <= i < |args| && Occurs(x, args[i])
  }

  /** The command's text or settings name the variable. */
  ghost predicate Mentions(cmd: Command, x: string)
  {
    match cmd
    case MathCommand(_, tree) => Occurs(x, tree.root)
    case ReduceCommand(_, _, _, input) => input == x
    case ResampleCommand(_, _, input) => input == x
    case ThresholdCommand(_, input, _, _) => input == x
    case ClassicConditions(_, conditions) => exists i :: 0 <= i < |conditions| && conditions[i].input == x
  }

  lemma {:induction false} OccursIsVarsOf(x: string, n: Node)
    ensures x in VarsOf(n) <==> Occurs(x, n)
  {
    match n {
      case UnaryNode(_, a) => OccursIsVarsOf(x, a);
      case BinaryNode(_, a, b) =>
        OccursIsVarsOf(x, a);
        OccursIsVarsOf(x, b);
      case FuncNode(_, _, args) => OccursIsVarsOfAll(x, args);
      case _ =>
    }
  }

  lemma {:induction false} OccursIsVarsOfAll(x: string, args: seq<Node>)
    ensures x in VarsOfAll(args) <==> exists i :: 0 <= i < |args| && Occurs(x, args[i])
  {
    if args != [] {
      OccursIsVarsOf(x, args[0]);
      OccursIsVarsOfAll(x, args[1..]);
      if i :| 0 <= i < |args| && Occurs(x, args[i]) {
        assert i > 0 ==> args[1..][i - 1] == args[i];
      }
    }
  }

  /** A command waits for exactly the variables it mentions. */
  lemma NeedsAreMentions(cmd: Command, x: string)
    requires Honest(cmd)
    ensures x in NeedsVars(cmd) <==> Mentions(cmd, x)
  {
    match cmd {
      case MathCommand(_, tree) => OccursIsVarsOf(x, tree.root);
      case ClassicConditions(_, conditions) =>
        if i :| 0 <= i < |conditions| && conditions[i].input == x {
          assert Inputs(conditions)[i] == x;
        }
      case _ =>
    }
  }

  // ---------------------------------------------------------- reduce, resample

  /** What becomes of one value: a series is reduced, a number takes the command's name, no data stays. */
  predicate IsReduced(lib: Library, cmd: Command, v: Value, r: Value)
    requires cmd.ReduceCommand?
  {
    match v
    case Series(_, _, _) => lib.reduce(cmd.refID, cmd.reducer, cmd.mapper, v) == Ok(r)
    case Number(_, labels, x) => r == Number(cmd.refID, labels, x)
    case NoData => r == NoData
    case Scalar(_, _) => false
  }

  predicate Reducible(lib: Library, cmd: Command, v: Value)
    requires cmd.ReduceCommand?
  {
    !v.Scalar? && (v.Series? ==> lib.reduce(cmd.refID, cmd.reducer, cmd.mapper, v).Ok?)
  }

  lemma {:induction false} ReduceAllIs(lib: Library, cmd: Command, vs: Results)
    requires cmd.ReduceCommand?
    ensures
      var r := ReduceAll(lib, cmd.refID, cmd.reducer, cmd.mapper, vs);
      && (r.Ok? <==> forall i | 0 <= i < |vs| :: Reducible(lib, cmd, vs[i]))
      && (r.Ok? ==> |r.value| == |vs| && forall i | 0 <= i < |vs| :: IsReduced(lib, cmd, vs[i], r.value[i]))
  {
    if vs != [] {
      var last := |vs| - 1;
      ReduceAllIs(lib, cmd, vs[..last]);
      assert forall i | 0 <= i < last :: vs[..last][i] == vs[i];
    }
  }

  /** A reduction answers unless a scalar or a failing series is in its input, and answers value by value. */
  lemma ReduceAnswers(env: Env, cmd: Command, vars: Vars)
    requires cmd.ReduceCommand?
    ensures
      var vs, r := Lookup(vars, cmd.input), Execute(env, cmd, vars);
      && (r.Ok? <==> forall i | 0 <= i < |vs| :: Reducible(env.lib, cmd, vs[i]))
      && (r.Ok? ==> |r.value| == |vs| && forall i | 0 <= i < |vs| :: IsReduced(env.lib, cmd, vs[i], r.value[i]))
  {
    ReduceAllIs(env.lib, cmd, Lookup(vars, cmd.input));
  }

  lemma {:induction false} ResampleAllIs(lib: Library, cmd: Command, vs: Results)
    requires cmd.ResampleCommand?
    ensures
      var r := ResampleAll(lib, cmd.refID, cmd.parameters, vs);
      && (r.Ok? <==> forall i | 0 <= i < |vs| :: vs[i].Series? && lib.resample(cmd.refID, cmd.parameters, vs[i]).Ok?)
      && (r.Ok? ==>
            |r.value| == |vs| && forall i | 0 <= i < |vs| :: lib.resample(cmd.refID, cmd.parameters, vs[i]) == Ok(r.value[i]))
  {
    if vs != [] {
      var last := |vs| - 1;
      ResampleAllIs(lib, cmd, vs[..last]);
      assert forall i | 0 <= i < last :: vs[..last][i] == vs[i];
    }
  }

  /** Resampling answers for series alone, each in its place. */
  lemma ResampleAnswers(env: Env, cmd: Command, vars: Vars)
    requires cmd.ResampleCommand?
    ensures
      var vs, r := Lookup(vars, cmd.input), Execute(env, cmd, vars);
      && (r.Ok? <==> forall i | 0 <= i < |vs| :: vs[i].Series? && env.lib.resample(cmd.refID, cmd.parameters, vs[i]).Ok?)
      && (r.Ok? ==>
            |r.value| == |vs| && forall i | 0 <= i < |vs| :: env.lib.resample(cmd.refID, cmd.parameters, vs[i]) == Ok(r.value[i]))
  {
    ResampleAllIs(env.lib, cmd, Lookup(vars, cmd.input));
  }

  // --------------------------------------------------------- classic conditions

  function Min(a: real, b: real): real
  {
    if a < b then a else b
  }

  function Max(a: real, b: real): real
  {
    if a < b then b else a
  }

  /**
    What the evaluators mean on numbers. The bounds of a range may be given in either order and
    belong to neither side, so a range of two equal bounds has nothing within.
  */
  lemma FiresOnNumbers(c: real, lo: real, hi: real, x: real)
    ensures Fires(GreaterThan(c), Some(Fin(x))) <==> x > c
    ensures Fires(LessThan(c), Some(Fin(x))) <==> x < c
    ensures Fires(Within(lo, hi), Some(Fin(x))) <==> Min(lo, hi) < x < Max(lo, hi)
    ensures Fires(Outside(lo, hi), Some(Fin(x))) <==> x < Min(lo, hi) || x > Max(lo, hi)
    ensures !Fires(NoValue, Some(Fin(x)))
  {
  }

  /** A null fires only the test for it, a NaN nothing, and the infinities lie beyond every bound. */
  lemma FiresBeyondNumbers(e: Evaluator)
    ensures Fires(e, None) <==> e == NoValue
    ensures !Fires(e, Some(NaN))
    ensures Fires(e, Some(PosInf)) <==> e.GreaterThan? || e.Outside?
    ensures Fires(e, Some(NegInf)) <==> e.LessThan? || e.Outside?
  {
  }

  /** The one number a value comes to for a condition. */
  function Reduced(lib: Library, c: ClassicCondition, v: Value): Option<Float>
  {
    if v.NoData? then None else if v.Series? then lib.classicReduce(c.reducer, v) else v.value
  }

  /** Some value of the input fires. */
  ghost predicate IsFiring(lib: Library, c: ClassicCondition, vs: Results)
  {
    exists k :: 0 <= k < |vs| && Fires(c.evaluator, Reduced(lib, c, vs[k]))
  }

  /** Every value of the input is null; an input without values is one of these. */
  ghost predicate IsNoData(lib: Library, c: ClassicCondition, vs: Results)
  {
    forall k | 0 <= k < |vs| :: Reduced(lib, c, vs[k]).None?
  }

  predicate NoScalar(vs: Results)
  {
    forall k | 0 <= k < |vs| :: !vs[k].Scalar?
  }

  lemma {:induction false} TallyIs(lib: Library, c: ClassicCondition, vs: Results)
    ensures
      var r := TallyOf(lib, c, vs);
      && (r.Ok? <==> NoScalar(vs))
      && (r.Ok? ==>
            && r.value.nulls <= |vs|
            && (r.value.firing > 0 <==> IsFiring(lib, c, vs))
            && (r.value.nulls == |vs| <==> IsNoData(lib, c, vs)))
  {
    if vs != [] {
      hide Fires;
      var last := |vs| - 1;
      TallyIs(lib, c, vs[..last]);
      assert forall i | 0 <= i < last :: vs[..last][i] == vs[i];
    }
  }

  function InputOf(cs: seq<ClassicCondition>, vars: Vars, i: nat): Results
    requires i < |cs|
  {
    Lookup(vars, cs[i].input)
  }

  /** The `i`-th condition fires, takes part, and no later condition undoes it. */
  ghost predicate Decides(lib: Library, cs: seq<ClassicCondition>, vars: Vars, i: nat)
  {
    && i < |cs| && IsFiring(lib, cs[i], InputOf(cs, vars, i)) && (i == 0 || cs[i].isOr)
    && forall j | i < j < |cs| :: cs[j].isOr || IsFiring(lib, cs[j], InputOf(cs, vars, j))
  }

  /** The `i`-th condition has no data, and every later one is joined by `or`. */
  ghost predicate Empties(lib: Library, cs: seq<ClassicCondition>, vars: Vars, i: nat)
  {
    && i < |cs| && IsNoData(lib, cs[i], InputOf(cs, vars, i))
    && forall j | i < j < |cs| :: cs[j].isOr
  }

  lemma {:induction false} FoldIs(lib: Library, cs: seq<ClassicCondition>, vars: Vars)
    ensures
      var r := Fold(lib, cs, vars);
      && (r.Ok? <==> forall i | 0 <= i < |cs| :: NoScalar(InputOf(cs, vars, i)))
      && (r.Ok? && cs != [] ==>
            && (r.value.firing <==> exists i :: Decides(lib, cs, vars, i))
            && (r.value.noData <==> exists i :: Empties(lib, cs, vars, i)))
  {
    hide TallyOf;
    hide IsFiring;
    hide IsNoData;
    hide NoScalar;
    if cs != [] {
      var n := |cs| - 1;
      var init := cs[..n];
      FoldIs(lib, init, vars);
      TallyIs(lib, cs[n], InputOf(cs, vars, n));
      assert forall i | 0 <= i < n :: InputOf(init, vars, i) == InputOf(cs, vars, i);
      OneMoreDecides(lib, cs, vars);
      OneMoreEmpties(lib, cs, vars);
    }
  }

  lemma OneMoreDecides(lib: Library, cs: seq<ClassicCondition>, vars: Vars)
    requires cs != []
    ensures
      var n := |cs| - 1;
      var firing := IsFiring(lib, cs[n], InputOf(cs, vars, n));
      (exists i :: Decides(lib, cs, vars, i)) <==>
        || (firing && (n == 0 || cs[n].isOr))
        || ((firing || cs[n].isOr) && exists i :: Decides(lib, cs[..n], vars, i))
  {
    hide IsFiring;
    var n := |cs| - 1;
    var init := cs[..n];
    assert forall i | 0 <= i < n :: init[i] == cs[i] && InputOf(init, vars, i) == InputOf(cs, vars, i);
    if i: nat :| Decides(lib, cs, vars, i) && i < n {
      assert Decides(lib, init, vars, i);
    }
    if i: nat :| Decides(lib, init, vars, i) && (cs[n].isOr || IsFiring(lib, cs[n], InputOf(cs, vars, n))) {
      assert Decides(lib, cs, vars, i);
    }
    if IsFiring(lib, cs[n], InputOf(cs, vars, n)) && (n == 0 || cs[n].isOr) {
      assert Decides(lib, cs, vars, n);
    }
  }

  lemma OneMoreEmpties(lib: Library, cs: seq<ClassicCondition>, vars: Vars)
    requires cs != []
    ensures
      var n := |cs| - 1;
      (exists i :: Empties(lib, cs, vars, i)) <==>
        || IsNoData(lib, cs[n], InputOf(cs, vars, n))
        || (cs[n].isOr && exists i :: Empties(lib, cs[..n], vars, i))
  {
    hide IsNoData;
    var n := |cs| - 1;
    var init := cs[..n];
    assert forall i | 0 <= i < n :: init[i] == cs[i] && InputOf(init, vars, i) == InputOf(cs, vars, i);
    if i: nat :| Empties(lib, cs, vars, i) && i < n {
      assert Empties(lib, init, vars, i);
    }
    if i: nat :| Empties(lib, init, vars, i) && cs[n].isOr {
      assert Empties(lib, cs, vars, i);
    }
    if IsNoData(lib, cs[n], InputOf(cs, vars, n)) {
      assert Empties(lib, cs, vars, n);
    }
  }

  /**
    Classic conditions in closed form. They fail on a scalar. They come to null if there are none
    or if some condition without data is followed by `or` alone; otherwise to 1 if some condition
    decides, and to 0 if none does. So a chain of `and` is null exactly when its last condition is.
  */
  lemma ClassicAnswers(env: Env, refID: string, cs: seq<ClassicCondition>, vars: Vars)
    ensures
      var r := Execute(env, ClassicConditions(refID, cs), vars);
      && (r.Ok? <==> forall i | 0 <= i < |cs| :: NoScalar(InputOf(cs, vars, i)))
      && (r.Ok? && (cs == [] || exists i :: Empties(env.lib, cs, vars, i)) ==> r.value == [Number("", map[], None)])
      && (r.Ok? && cs != [] && !(exists i :: Empties(env.lib, cs, vars, i)) ==>
            r.value == [Number("", map[], Some(if exists i :: Decides(env.lib, cs, vars, i) then Fin(1.0) else Fin(0.0)))])
  {
    hide Decides;
    hide Empties;
    hide NoScalar;
    FoldIs(env.lib, cs, vars);
  }

  lemma AndChainIsNullIff(env: Env, refID: string, cs: seq<ClassicCondition>, vars: Vars)
    requires cs != [] && forall i | 0 <= i < |cs| :: !cs[i].isOr && NoScalar(InputOf(cs, vars, i))
    ensures
      var r := Execute(env, ClassicConditions(refID, cs), vars);
      var n := |cs| - 1;
      && r.Ok?
      && (r.value == [Number("", map[], None)] <==> IsNoData(env.lib, cs[n], InputOf(cs, vars, n)))
      && (r.value == [Number("", map[], Some(Fin(1.0)))] <==>
            && !IsNoData(env.lib, cs[n], InputOf(cs, vars, n))
            && forall i | 0 <= i < |cs| :: IsFiring(env.lib, cs[i], InputOf(cs, vars, i)))
  {
    hide IsNoData;
    hide IsFiring;
    hide Execute;
    hide NoScalar;
    ClassicAnswers(env, refID, cs, vars);
    var n := |cs| - 1;
    if IsNoData(env.lib, cs[n], InputOf(cs, vars, n)) {
      assert Empties(env.lib, cs, vars, n);
    } else {
      assert forall i :: !Empties(env.lib, cs, vars, i);
    }
    if forall i | 0 <= i < |cs| :: IsFiring(env.lib, cs[i], InputOf(cs, vars, i)) {
      assert Decides(env.lib, cs, vars, 0);
    } else {
      assert forall i :: !Decides(env.lib, cs, vars, i);
    }
  }
}
