/**
  Why an evaluation panics: whatever the data, there is one variable whose NoData is to blame, or a
  call that cannot be made. So the classes of an expression decide whether it can panic at all.
*/
module MathPanicCauses {
  import opened Wrappers
  import opened MathValues
  import opened MathParser
  import opened MathLexer
  import opened MathEval
  import opened MathCalls
  import opened MathPanics

  ghost predicate HasNoData(vs: Results)
  {
    exists i :: 0 <= i < |vs| && vs[i].NoData?
  }

  ghost predicate HoldsNoData(cells: Cells)
  {
    exists i :: 0 <= i < |cells| && cells[i] == Some(NoData)
  }

  predicate AllData(cells: Cells)
  {
    forall i | 0 <= i < |cells| :: cells[i].Some? && !cells[i].value.NoData?
  }

  lemma DataOrNot(cells: Cells)
    ensures AllData(cells) <==> NilFree(cells) && !HoldsNoData(cells)
  {
  }

  // ------------------------------------------------------------- what steps keep

  lemma {:induction false} UnaryKeeps(refID: string, op: string, cells: Cells)
    ensures
      var r := UnaryCells(refID, op, cells);
      && (r.Panicked? ==> !NilFree(cells))
      && (r.Computed? ==>
            && NilFree(cells) && |r.cells| == |cells| && NilFree(r.cells)
            && forall i | 0 <= i < |cells| :: r.cells[i] == Some(NoData) <==> cells[i] == Some(NoData))
  {
    if cells != [] {
      UnaryKeeps(refID, op, cells[..|cells| - 1]);
    }
  }

  lemma {:induction false} ApplyKeeps(fs: Functions, name: string, refID: string, cells: Cells)
    ensures
      var r := ApplyCells(fs, name, refID, cells);
      && !r.Failed?
      && (r.Panicked? ==> !NilFree(cells))
      && (r.Computed? ==>
            && NilFree(cells) && |r.cells| == |cells| && !HoldsNoData(r.cells)
            && forall i | 0 <= i < |cells| :: r.cells[i].None? <==> cells[i] == Some(NoData))
  {
    if cells != [] {
      ApplyKeeps(fs, name, refID, cells[..|cells| - 1]);
    }
  }

  lemma {:induction false} JoinsAreData(lib: Library, refID: string, op: string, us: seq<Union>)
    ensures var r := BinaryAll(lib, refID, op, us); r.Ok? ==> AllData(Plain(r.value))
  {
    if us != [] {
      hide NullableOp;
      JoinsAreData(lib, refID, op, us[..|us| - 1]);
    }
  }

  /** A join that yields something had data on both sides, and yields data. */
  lemma JoinNeedsData(lib: Library, refID: string, op: string, xs: Cells, ys: Cells)
    requires JoinCells(lib, refID, op, xs, ys).Computed?
    ensures AllData(JoinCells(lib, refID, op, xs, ys).cells)
    ensures JoinCells(lib, refID, op, xs, ys).cells != [] ==> xs != [] && ys != [] && AllData(xs) && AllData(ys)
  {
    hide BinaryAll;
    hide UnionsOf;
    if JoinCells(lib, refID, op, xs, ys).cells != [] {
      var x, y := Bare(xs), Bare(ys);
      JoinsAreData(lib, refID, op, Unions(x, y));
      if !AllData(xs) || !AllData(ys) {
        JoinOfNoDataFails(lib, refID, op, xs, ys);
      }
    }
  }

  lemma JoinOfNoDataFails(lib: Library, refID: string, op: string, xs: Cells, ys: Cells)
    requires NilFree(xs) && NilFree(ys) && xs != [] && ys != [] && (HoldsNoData(xs) || HoldsNoData(ys))
    requires !(Single(xs, ys) && (xs[0] == Some(NoData) || ys[0] == Some(NoData)))
    ensures JoinCells(lib, refID, op, xs, ys).Failed?
  {
    hide BinaryAll;
    hide UnionsOf;
    var x, y := Bare(xs), Bare(ys);
    var i, j := 0, 0;
    if HoldsNoData(xs) {
      i :| 0 <= i < |xs| && xs[i] == Some(NoData);
    } else {
      j :| 0 <= j < |ys| && ys[j] == Some(NoData);
    }
    NoDataFails(lib, refID, op, x, y, i, j);
    assert BinaryAll(lib, refID, op, []) == Ok([]) by {
      EmptyJoin(lib, refID, op);
    }
    assert Unions(x, y) == UnionsOf(x, y);
  }

  lemma EmptyJoin(lib: Library, refID: string, op: string)
    ensures BinaryAll(lib, refID, op, []) == Ok([])
  {
  }

  // --------------------------------------------------------- where NoData comes from

  /** The class is `c` when that variable is the missing one, and plain data otherwise. */
  ghost predicate ComesTo(g: Grammar, n: Node, v: string, c: Class)
  {
    forall w: string, two: bool :: Classify(g, w, two, n) == if w == v then c else Data
  }

  lemma OneArgument(m: Machine, refID: string, vars: Vars, name: string, args: seq<Node>)
    requires Builtin(m.g) && Fits(m.g, name, args) && args != [] && EvalArgs(m, refID, vars, args).ArgsComputed?
    ensures |args| == 1 && !args[0].StringNode?
    ensures Eval(m, refID, vars, args[0]) == Computed(EvalArgs(m, refID, vars, args).args[0])
    ensures forall w, two :: ClassifyArgs(m.g, w, two, args) == Classify(m.g, w, two, args[0])
  {
    assert args[1..] == [];
  }

  /** NoData in a result is the NoData of one variable, at most with operators in front. */
  lemma {:induction false} NoDataSource(m: Machine, refID: string, vars: Vars, n: Node) returns (v: string)
    requires Builtin(m.g) && Eval(m, refID, vars, n).Computed? && HoldsNoData(Eval(m, refID, vars, n).cells)
    ensures HasNoData(Lookup(vars, v)) && |Eval(m, refID, vars, n).cells| == |Lookup(vars, v)|
    ensures ComesTo(m.g, n, v, Missing)
  {
    match n {
      case VarNode(name) => v := name;
      case UnaryNode(op, a) =>
        UnaryKeeps(refID, op, Eval(m, refID, vars, a).cells);
        v := NoDataSource(m, refID, vars, a);
      case BinaryNode(op, a, b) =>
        JoinNeedsData(m.lib, refID, op, Eval(m, refID, vars, a).cells, Eval(m, refID, vars, b).cells);
        assert false;
      case FuncNode(name, _, args) =>
        NoDataFromNoCall(m, refID, vars, n);
        assert false;
    }
  }

  lemma NoDataFromNoCall(m: Machine, refID: string, vars: Vars, n: Node)
    requires n.FuncNode? && Eval(m, refID, vars, n).Computed?
    ensures !HoldsNoData(Eval(m, refID, vars, n).cells)
  {
    if n.args != [] {
      ApplyKeeps(m.fs, n.name, refID, EvalArgs(m, refID, vars, n.args).args[0]);
    }
  }

  /** A nil value is a call on such a result. */
  lemma NilSource(m: Machine, refID: string, vars: Vars, n: Node) returns (v: string)
    requires Builtin(m.g) && Eval(m, refID, vars, n).Computed? && !NilFree(Eval(m, refID, vars, n).cells)
    ensures HasNoData(Lookup(vars, v)) && |Eval(m, refID, vars, n).cells| == |Lookup(vars, v)|
    ensures ComesTo(m.g, n, v, Nil)
  {
    match n {
      case UnaryNode(op, a) =>
        UnaryKeeps(refID, op, Eval(m, refID, vars, a).cells);
        assert false;
      case BinaryNode(op, a, b) =>
        JoinNeedsData(m.lib, refID, op, Eval(m, refID, vars, a).cells, Eval(m, refID, vars, b).cells);
        assert false;
      case FuncNode(name, _, args) =>
        OneArgument(m, refID, vars, name, args);
        ApplyKeeps(m.fs, name, refID, EvalArgs(m, refID, vars, args).args[0]);
        v := NoDataSource(m, refID, vars, args[0]);
    }
  }

  /** A result of data only does not come from a variable that holds NoData. */
  lemma {:induction false} DataIsData(m: Machine, refID: string, vars: Vars, n: Node, v: string, two: bool)
    requires Builtin(m.g) && HasNoData(Lookup(vars, v))
    requires var r := Eval(m, refID, vars, n); r.Computed? && r.cells != [] && AllData(r.cells)
    ensures Classify(m.g, v, two, n) == Data
  {
    match n {
      case UnaryNode(op, a) =>
        UnaryKeeps(refID, op, Eval(m, refID, vars, a).cells);
        DataIsData(m, refID, vars, a, v, two);
      case BinaryNode(op, a, b) =>
        JoinNeedsData(m.lib, refID, op, Eval(m, refID, vars, a).cells, Eval(m, refID, vars, b).cells);
        DataIsData(m, refID, vars, a, v, two);
        DataIsData(m, refID, vars, b, v, two);
      case FuncNode(name, _, args) =>
        if args != [] {
          OneArgument(m, refID, vars, name, args);
          ApplyKeeps(m.fs, name, refID, EvalArgs(m, refID, vars, args).args[0]);
          DataIsData(m, refID, vars, args[0], v, two);
        }
      case _ =>
    }
  }

  /** A nonempty result is there in the sample, too. */
  lemma NonemptyStays(m: Machine, refID: string, vars: Vars, n: Node, v: string, two: bool)
    requires Builtin(m.g) && HasNoData(Lookup(vars, v))
    requires var r := Eval(m, refID, vars, n); r.Computed? && r.cells != []
    ensures Classify(m.g, v, two, n) in {Data, Missing, Nil}
  {
    hide Classify;
    hide Eval;
    var cells := Eval(m, refID, vars, n).cells;
    if !NilFree(cells) {
      var w := NilSource(m, refID, vars, n);
    } else if HoldsNoData(cells) {
      var w := NoDataSource(m, refID, vars, n);
    } else {
      DataIsData(m, refID, vars, n, v, two);
    }
  }

  // -------------------------------------------------------- the sample does not fail

  lemma {:induction false} SingleNeverFails(g: Grammar, v: string, n: Node)
    requires Sound(n)
    ensures !Classify(g, v, false, n).Fails?
  {
    match n {
      case UnaryNode(_, a) => SingleNeverFails(g, v, a);
      case BinaryNode(_, a, b) =>
        SingleNeverFails(g, v, a);
        SingleNeverFails(g, v, b);
      case FuncNode(_, _, args) => SingleArgsNeverFail(g, v, args);
      case _ =>
    }
  }

  lemma {:induction false} SingleArgsNeverFail(g: Grammar, v: string, args: seq<Node>)
    requires SoundArgs(args)
    ensures !ClassifyArgs(g, v, false, args).Fails?
  {
    if args != [] {
      if !args[0].StringNode? {
        SingleNeverFails(g, v, args[0]);
      }
      SingleArgsNeverFail(g, v, args[1..]);
    }
  }

  /** The variable really holds NoData among at least two values. */
  ghost predicate Among(vars: Vars, v: string)
  {
    HasNoData(Lookup(vars, v)) && |Lookup(vars, v)| >= 2
  }

  lemma {:induction false} MissingHoldsNoData(m: Machine, refID: string, vars: Vars, n: Node, v: string)
    requires Classify(m.g, v, true, n) == Missing && Among(vars, v) && Eval(m, refID, vars, n).Computed?
    ensures var cells := Eval(m, refID, vars, n).cells; |cells| >= 2 && NilFree(cells) && HoldsNoData(cells)
  {
    match n {
      case VarNode(name) =>
        var i :| 0 <= i < |Lookup(vars, v)| && Lookup(vars, v)[i].NoData?;
        assert Plain(Lookup(vars, v))[i] == Some(NoData);
      case UnaryNode(op, a) =>
        MissingHoldsNoData(m, refID, vars, a, v);
        UnaryKeeps(refID, op, Eval(m, refID, vars, a).cells);
      case _ =>
    }
  }

  lemma {:induction false} ComputedNeverFails(m: Machine, refID: string, vars: Vars, n: Node, v: string)
    requires Sound(n) && Among(vars, v) && Eval(m, refID, vars, n).Computed?
    ensures !Classify(m.g, v, true, n).Fails?
  {
    match n {
      case UnaryNode(_, a) => ComputedNeverFails(m, refID, vars, a, v);
      case BinaryNode(op, a, b) =>
        ComputedNeverFails(m, refID, vars, a, v);
        ComputedNeverFails(m, refID, vars, b, v);
        if Classify(m.g, v, true, a) == Missing == Classify(m.g, v, true, b) {
          MissingHoldsNoData(m, refID, vars, a, v);
          MissingHoldsNoData(m, refID, vars, b, v);
          JoinOfNoDataFails(m.lib, refID, op, Eval(m, refID, vars, a).cells, Eval(m, refID, vars, b).cells);
        }
      case FuncNode(_, _, args) => ComputedArgsNeverFail(m, refID, vars, args, v);
      case _ =>
    }
  }

  lemma {:induction false} ComputedArgsNeverFail(m: Machine, refID: string, vars: Vars, args: seq<Node>, v: string)
    requires SoundArgs(args) && Among(vars, v) && EvalArgs(m, refID, vars, args).ArgsComputed?
    ensures !ClassifyArgs(m.g, v, true, args).Fails?
  {
    if args != [] {
      if !args[0].StringNode? {
        ComputedNeverFails(m, refID, vars, args[0], v);
      }
      ComputedArgsNeverFail(m, refID, vars, args[1..], v);
    }
  }

  lemma ComputedIsNoFailure(m: Machine, refID: string, vars: Vars, n: Node, v: string, two: bool)
    requires Sound(n) && (two ==> Among(vars, v)) && Eval(m, refID, vars, n).Computed?
    ensures !Classify(m.g, v, two, n).Fails?
  {
    if two {
      ComputedNeverFails(m, refID, vars, n, v);
    } else {
      SingleNeverFails(m.g, v, n);
    }
  }

  // ------------------------------------------------------------------ the cause

  /** A join panics on a nil value, and one variable makes the sample's join panic, too. */
  lemma JoinCause(m: Machine, refID: string, vars: Vars, op: string, a: Node, b: Node) returns (v: string, two: bool)
    requires Builtin(m.g) && Eval(m, refID, vars, a).Computed? && Eval(m, refID, vars, b).Computed?
    requires JoinCells(m.lib, refID, op, Eval(m, refID, vars, a).cells, Eval(m, refID, vars, b).cells).Panicked?
    ensures two ==> Among(vars, v)
    ensures
      var x, y := Classify(m.g, v, two, a), Classify(m.g, v, two, b);
      !Stops(x) && !Stops(y) && Join(two, x, y).Panics?
  {
    hide Eval;
    hide Classify;
    hide BinaryAll;
    hide UnionsOf;
    var xs, ys := Eval(m, refID, vars, a).cells, Eval(m, refID, vars, b).cells;
    two := false;
    if !NilFree(xs) {
      v := NilSource(m, refID, vars, a);
      NonemptyStays(m, refID, vars, b, v, two);
    } else {
      v := NilSource(m, refID, vars, b);
      if HoldsNoData(xs) {
        var w := NoDataSource(m, refID, vars, a);
        if w == v {
          two := true;
          assert |xs| == |ys|;
          assert |xs| != 1;
        }
      } else {
        DataOrNot(xs);
        DataIsData(m, refID, vars, a, v, two);
      }
    }
  }

  lemma {:induction false} PanicCause(m: Machine, refID: string, vars: Vars, n: Node) returns (v: string, two: bool)
    requires Builtin(m.g) && Sound(n) && Eval(m, refID, vars, n).Panicked?
    ensures (two ==> Among(vars, v)) && Classify(m.g, v, two, n).Panics?
  {
    match n {
      case UnaryNode(op, a) =>
        if Eval(m, refID, vars, a).Panicked? {
          v, two := PanicCause(m, refID, vars, a);
        } else {
          UnaryKeeps(refID, op, Eval(m, refID, vars, a).cells);
          v := NilSource(m, refID, vars, a);
          two := false;
        }
      case BinaryNode(op, a, b) =>
        if Eval(m, refID, vars, a).Panicked? {
          v, two := PanicCause(m, refID, vars, a);
        } else if Eval(m, refID, vars, b).Panicked? {
          v, two := PanicCause(m, refID, vars, b);
          ComputedIsNoFailure(m, refID, vars, a, v, two);
        } else {
          v, two := JoinCause(m, refID, vars, op, a, b);
        }
      case FuncNode(name, _, args) =>
        var xs := EvalArgs(m, refID, vars, args);
        if xs.ArgsPanicked? {
          v, two := ArgsPanicCause(m, refID, vars, args);
        } else if !Fits(m.g, name, args) {
          v, two := "", false;
          SingleArgsNeverFail(m.g, v, args);
        } else {
          OneArgument(m, refID, vars, name, args);
          ApplyKeeps(m.fs, name, refID, xs.args[0]);
          v := NilSource(m, refID, vars, args[0]);
          two := false;
        }
    }
  }

  lemma {:induction false} ArgsPanicCause(m: Machine, refID: string, vars: Vars, args: seq<Node>) returns (v: string, two: bool)
    requires Builtin(m.g) && SoundArgs(args) && EvalArgs(m, refID, vars, args).ArgsPanicked?
    ensures (two ==> Among(vars, v)) && ClassifyArgs(m.g, v, two, args).Panics?
  {
    if !args[0].StringNode? && Eval(m, refID, vars, args[0]).Panicked? {
      v, two := PanicCause(m, refID, vars, args[0]);
    } else {
      v, two := ArgsPanicCause(m, refID, vars, args[1..]);
      if !args[0].StringNode? {
        ComputedIsNoFailure(m, refID, vars, args[0], v, two);
      }
    }
  }

  // ---------------------------------------------------------------- main results

  ghost predicate CanPanic(m: Machine, n: Node)
  {
    exists refID: string, vars: Vars :: Eval(m, refID, vars, n).Panicked?
  }

  ghost predicate SamplePanics(g: Grammar, n: Node)
  {
    exists v: string, two: bool :: Classify(g, v, two, n).Panics?
  }

  /**
    Some data make the expression panic if and only if one of its samples does: NoData in one
    variable, alone or followed by a scalar, and a scalar in all others. This holds for every
    library and every set of built-in functions, and the classes need neither.
  */
  lemma PanicIff(m: Machine, n: Node)
    requires Builtin(m.g) && Sound(n)
    ensures CanPanic(m, n) <==> SamplePanics(m.g, n)
  {
    hide Eval;
    hide Classify;
    if CanPanic(m, n) {
      var refID: string, vars: Vars :| Eval(m, refID, vars, n).Panicked?;
      var v, two := PanicCause(m, refID, vars, n);
    }
    if SamplePanics(m.g, n) {
      var v: string, two: bool :| Classify(m.g, v, two, n).Panics?;
      ClassIsExact(m, "", v, two, SampleVars(v, two, VarsOf(n)), n);
      assert Eval(m, "", SampleVars(v, two, VarsOf(n)), n).Panicked?;
    }
  }

  predicate YieldsNil(m: Machine, refID: string, vars: Vars, n: Node)
  {
    var r := Eval(m, refID, vars, n);
    r.Computed? && !NilFree(r.cells)
  }

  ghost predicate CanYieldNil(m: Machine, n: Node)
  {
    exists refID: string, vars: Vars :: YieldsNil(m, refID, vars, n)
  }

  /** Some data make it yield a nil value, on which encoding the answer panics, if and only if a sample does. */
  lemma NilIff(m: Machine, n: Node)
    requires Builtin(m.g) && Sound(n)
    ensures CanYieldNil(m, n) <==> exists v: string :: Classify(m.g, v, false, n).Nil?
  {
    hide Eval;
    hide Classify;
    if CanYieldNil(m, n) {
      var refID: string, vars: Vars :| YieldsNil(m, refID, vars, n);
      var v := NilSource(m, refID, vars, n);
      assert Classify(m.g, v, false, n).Nil?;
    }
    if exists v: string :: Classify(m.g, v, false, n).Nil? {
      var v: string :| Classify(m.g, v, false, n).Nil?;
      var vars := SampleVars(v, false, VarsOf(n));
      ClassIsExact(m, "", v, false, vars, n);
      assert Eval(m, "", vars, n).cells[0].None?;
      assert YieldsNil(m, "", vars, n);
    }
  }

  /** A call that cannot be made is reached in the sample of every variable. */
  lemma {:induction false} UnfitPanics(g: Grammar, v: string, n: Node)
    requires Sound(n) && !AllFit(g, n)
    ensures Classify(g, v, false, n).Panics?
  {
    match n {
      case UnaryNode(_, a) => UnfitPanics(g, v, a);
      case BinaryNode(_, a, b) =>
        SingleNeverFails(g, v, a);
        if AllFit(g, a) {
          UnfitPanics(g, v, b);
        } else {
          UnfitPanics(g, v, a);
        }
      case FuncNode(name, _, args) =>
        SingleArgsNeverFail(g, v, args);
        if Fits(g, name, args) {
          var i :| 0 <= i < |args| && !AllFit(g, args[i]);
          UnfitArgPanics(g, v, args, i);
        }
      case _ =>
    }
  }

  lemma {:induction false} UnfitArgPanics(g: Grammar, v: string, args: seq<Node>, i: nat)
    requires SoundArgs(args) && i < |args| && !AllFit(g, args[i])
    ensures ClassifyArgs(g, v, false, args).Panics?
  {
    hide Classify;
    if i == 0 {
      UnfitPanics(g, v, args[0]);
    } else {
      if !args[0].StringNode? {
        SingleNeverFails(g, v, args[0]);
      }
      UnfitArgPanics(g, v, args[1..], i - 1);
    }
  }

  /** With every library and every set of functions, variables that hold one scalar each lead to a bad call. */
  lemma BadCallIsReached(m: Machine, refID: string, missing: string, vars: Vars, n: Node)
    requires Builtin(m.g) && Sound(n) && !AllFit(m.g, n) && Samples(vars, missing, false, VarsOf(n))
    ensures Eval(m, refID, vars, n).Panicked?
  {
    hide Eval;
    hide Classify;
    UnfitPanics(m.g, missing, n);
    ClassIsExact(m, refID, missing, false, vars, n);
  }

  /**
    A parsed expression can panic if and only if a sample of it does; a call below a binary
    operator that does not fit is enough.
  */
  lemma ParsedPanicIff(u: Classes, m: Machine, text: string)
    requires Builtin(m.g)
    ensures
      var tree := Parse(u, m.g, text);
      tree.Some? ==>
        && (CanPanic(m, tree.value.root) <==> SamplePanics(m.g, tree.value.root))
        && (!UncheckedFit(m.g, tree.value.root) ==> CanPanic(m, tree.value.root))
  {
    hide Parse;
    hide Check;
    hide Sound;
    hide Eval;
    hide Classify;
    hide AllFit;
    hide UncheckedFit;
    if Parse(u, m.g, text).Some? {
      var n := Parse(u, m.g, text).value.root;
      ParsedIsSound(u, m.g, text);
      CheckedFits(m.g, n);
      PanicIff(m, n);
      if !UncheckedFit(m.g, n) {
        UnfitPanics(m.g, "", n);
      }
    }
  }

  // ---------------------------------------------------------- without NoData

  function ApplyAll(fs: Functions, name: string, refID: string, vs: Results): (r: Results)
    ensures |r| == |vs|
  {
    seq(|vs|, i requires 0 <= i < |vs| =>
      var v := ApplyValue(fs, name, refID, vs[i]); if v.None? then NoData else v.value)
  }

  /** What a call of a built-in function answers on data. */
  function CallResult(fs: Functions, name: string, refID: string, args: seq<Arg>): Result<Results>
  {
    if args == [] then Ok([Scalar(refID, fs.constant(name))])
    else if args[0].ArgText? then Err("text")
    else Ok(ApplyAll(fs, name, refID, args[0].results))
  }

  /** The walk's function library is that of the machine. */
  ghost predicate SameFunctions(m: Machine)
  {
    forall name, refID, args :: m.lib.call(name, refID, args) == CallResult(m.fs, name, refID, args)
  }

  ghost predicate VarsHaveData(vars: Vars, names: seq<string>)
  {
    forall x | x in names :: AllData(Plain(Lookup(vars, x)))
  }

  lemma {:induction false} UnaryOnData(refID: string, op: string, vs: Results)
    requires AllData(Plain(vs))
    ensures UnaryCells(refID, op, Plain(vs)) == Lifted(UnaryAll(refID, op, vs))
  {
    if vs == [] {
      assert Plain([]) == [];
    } else {
      hide UnaryValue;
      var init := vs[..|vs| - 1];
      assert Plain(vs)[..|vs| - 1] == Plain(init);
      UnaryOnData(refID, op, init);
      if UnaryAll(refID, op, vs).Ok? {
        assert Plain(UnaryAll(refID, op, vs).value) ==
          Plain(UnaryAll(refID, op, init).value) + [Some(UnaryValue(refID, op, vs[|vs| - 1]).value)];
      }
    }
  }

  lemma JoinOnData(lib: Library, refID: string, op: string, xs: Results, ys: Results)
    requires AllData(Plain(xs)) && AllData(Plain(ys))
    ensures JoinCells(lib, refID, op, Plain(xs), Plain(ys)) == Lifted(BinaryAll(lib, refID, op, Unions(xs, ys)))
  {
    EmptyJoin(lib, refID, op);
    hide BinaryAll;
    hide UnionsOf;
    assert Bare(Plain(xs)) == xs && Bare(Plain(ys)) == ys;
    if xs == [] || ys == [] {
      assert Plain([]) == [];
    }
  }

  lemma {:induction false} ApplyOnData(fs: Functions, name: string, refID: string, vs: Results)
    requires AllData(Plain(vs))
    ensures ApplyCells(fs, name, refID, Plain(vs)) == Computed(Plain(ApplyAll(fs, name, refID, vs)))
  {
    if vs != [] {
      hide ApplyValue;
      var init := vs[..|vs| - 1];
      assert Plain(vs)[..|vs| - 1] == Plain(init);
      ApplyOnData(fs, name, refID, init);
      ApplyKeepsValue(fs, name, refID, vs[|vs| - 1]);
      assert Plain(ApplyAll(fs, name, refID, vs)) ==
        Plain(ApplyAll(fs, name, refID, init)) + [ApplyValue(fs, name, refID, vs[|vs| - 1])];
    }
  }

  lemma ApplyKeepsValue(fs: Functions, name: string, refID: string, v: Value)
    requires !v.NoData?
    ensures ApplyValue(fs, name, refID, v).Some? && !ApplyValue(fs, name, refID, v).value.NoData?
  {
  }

  /**
    On variables without NoData, an expression whose calls fit never panics and never yields nil:
    the evaluator does what the walk does.
  */
  lemma {:induction false} EvalIsWalk(m: Machine, refID: string, vars: Vars, n: Node)
    requires Builtin(m.g) && SameFunctions(m) && AllFit(m.g, n) && VarsHaveData(vars, VarsOf(n))
    ensures Eval(m, refID, vars, n) == Lifted(Walk(m.lib, refID, vars, n))
    ensures Eval(m, refID, vars, n).Computed? ==> AllData(Eval(m, refID, vars, n).cells)
    decreases n, 1
  {
    match n {
      case VarNode(name) => assert name in VarsOf(n);
      case ScalarNode(f) => assert Plain([Scalar(refID, Some(f))]) == [Some(Scalar(refID, Some(f)))];
      case StringNode(_) =>
      case UnaryNode(op, a) =>
        EvalIsWalk(m, refID, vars, a);
        var x := Walk(m.lib, refID, vars, a);
        if x.Ok? {
          UnaryOnData(refID, op, x.value);
          UnaryKeeps(refID, op, Plain(x.value));
        }
      case BinaryNode(op, a, b) =>
        EvalIsWalk(m, refID, vars, a);
        EvalIsWalk(m, refID, vars, b);
        var x, y := Walk(m.lib, refID, vars, a), Walk(m.lib, refID, vars, b);
        if x.Ok? && y.Ok? {
          JoinOnData(m.lib, refID, op, x.value, y.value);
          JoinsAreData(m.lib, refID, op, Unions(x.value, y.value));
        }
      case FuncNode(name, _, args) =>
        if args == [] {
          assert Plain([Scalar(refID, m.fs.constant(name))]) == [Some(Scalar(refID, m.fs.constant(name)))];
        } else {
          CallIsWalk(m, refID, vars, n);
        }
    }
  }

  lemma {:induction false} CallIsWalk(m: Machine, refID: string, vars: Vars, n: Node)
    requires n.FuncNode? && n.args != []
    requires Builtin(m.g) && SameFunctions(m) && AllFit(m.g, n) && VarsHaveData(vars, VarsOf(n))
    ensures Eval(m, refID, vars, n) == Lifted(Walk(m.lib, refID, vars, n))
    ensures Eval(m, refID, vars, n).Computed? ==> AllData(Eval(m, refID, vars, n).cells)
    decreases n, 0
  {
    var a := n.args[0];
    assert n.args == [a] && n.args[1..] == [] && !a.StringNode?;
    assert VarsOf(n) == VarsOf(a) + VarsOfAll([]);
    EvalIsWalk(m, refID, vars, a);
    var x := Walk(m.lib, refID, vars, a);
    assert EvalArgs(m, refID, vars, []) == ArgsComputed([]);
    assert WalkArgs(m.lib, refID, vars, []) == Ok([]);
    if x.Ok? {
      assert [ArgResults(x.value)] + [] == [ArgResults(x.value)];
      assert WalkArgs(m.lib, refID, vars, n.args) == Ok([ArgResults(x.value)]);
      assert EvalArgs(m, refID, vars, n.args) == ArgsComputed([Plain(x.value)]);
      ApplyOnData(m.fs, n.name, refID, x.value);
      ApplyKeeps(m.fs, n.name, refID, Plain(x.value));
      DataOrNot(ApplyCells(m.fs, n.name, refID, Plain(x.value)).cells);
    }
  }
}
