/**
  When evaluating a math expression panics. There are two sources: a call that cannot be made, and
  the nil value that a built-in function makes out of NoData, which panics as soon as an operator
  or another function touches it. This evaluator follows both; on data that has neither it agrees
  with the walk of MathEval.
*/
module MathPanics {
  import opened Wrappers
  import opened MathValues
  import opened MathParser
  import opened MathEval
  import opened MathCalls

  /** The built-in functions: a constant without arguments, or a float function applied to every point. */
  datatype Functions = Functions(constant: string -> Option<Float>, apply: (string, Option<Float>) -> Option<Float>)

  datatype Machine = Machine(g: Grammar, lib: Library, fs: Functions)

  /** Values as the evaluator holds them; None is a nil value. */
  type Cells = seq<Option<Value>>

  datatype Outcome = Computed(cells: Cells) | Failed(message: string) | Panicked

  predicate NilFree(cells: Cells)
  {
    forall i | 0 <= i < |cells| :: cells[i].Some?
  }

  function Plain(vs: Results): (cells: Cells)
    ensures |cells| == |vs| && forall i | 0 <= i < |vs| :: cells[i] == Some(vs[i])
  {
    seq(|vs|, i requires 0 <= i < |vs| => Some(vs[i]))
  }

  function Bare(cells: Cells): (vs: Results)
    requires NilFree(cells)
    ensures |vs| == |cells| && forall i | 0 <= i < |cells| :: cells[i] == Some(vs[i])
  {
    seq(|cells|, i requires 0 <= i < |cells| => cells[i].value)
  }

  function Lifted(r: Result<Results>): Outcome
  {
    if r.Err? then Failed(r.message) else Computed(Plain(r.value))
  }

  // ---------------------------------------------------------------- evaluation

  function UnaryCells(refID: string, op: string, cells: Cells): Outcome
  {
    if cells == [] then Computed([])
    else
      var rest, last := UnaryCells(refID, op, cells[..|cells| - 1]), cells[|cells| - 1];
      if !rest.Computed? then rest
      else if last.None? then Panicked
      else
        var v := UnaryValue(refID, op, last.value);
        if v.Err? then Failed(v.message) else Computed(rest.cells + [Some(v.value)])
  }

  /** The sizes for which the join looks at the first values before anything else. */
  predicate Single(xs: Cells, ys: Cells)
  {
    |xs| == 1 || |ys| == 1
  }

  /** Joining two results: NoData at the front of a single one ends the join early; any other nil panics. */
  function JoinCells(lib: Library, refID: string, op: string, xs: Cells, ys: Cells): Outcome
  {
    if xs == [] || ys == [] then Computed([])
    else if Single(xs, ys) && xs[0] == Some(NoData) then Computed([])
    else if Single(xs, ys) && xs[0].Some? && ys[0] == Some(NoData) then Computed([])
    else if !NilFree(xs) || !NilFree(ys) then Panicked
    else Lifted(BinaryAll(lib, refID, op, Unions(Bare(xs), Bare(ys))))
  }

  /** One value through a built-in function; NoData becomes nil. */
  function ApplyValue(fs: Functions, name: string, refID: string, v: Value): Option<Value>
  {
    match v
    case NoData => None
    case Scalar(_, x) => Some(Scalar(refID, fs.apply(name, x)))
    case Number(_, labels, x) => Some(Number(refID, labels, fs.apply(name, x)))
    case Series(_, labels, points) =>
      Some(Series(refID, labels, seq(|points|, i requires 0 <= i < |points| =>
        Point(points[i].time, fs.apply(name, points[i].value)))))
  }

  function ApplyCells(fs: Functions, name: string, refID: string, cells: Cells): Outcome
  {
    if cells == [] then Computed([])
    else
      var rest, last := ApplyCells(fs, name, refID, cells[..|cells| - 1]), cells[|cells| - 1];
      if !rest.Computed? then rest
      else if last.None? then Panicked
      else Computed(rest.cells + [ApplyValue(fs, name, refID, last.value)])
  }

  datatype ArgsOutcome = ArgsComputed(args: seq<Cells>) | ArgsFailed(message: string) | ArgsPanicked

  function Eval(m: Machine, refID: string, vars: Vars, n: Node): Outcome
  {
    match n
    case ScalarNode(f) => Computed([Some(Scalar(refID, Some(f)))])
    case StringNode(_) => Failed("can not walk a string")
    case VarNode(name) => Computed(Plain(Lookup(vars, name)))
    case UnaryNode(op, a) =>
      var r := Eval(m, refID, vars, a);
      if r.Computed? then UnaryCells(refID, op, r.cells) else r
    case BinaryNode(op, a, b) =>
      var x := Eval(m, refID, vars, a);
      if !x.Computed? then x
      else
        var y := Eval(m, refID, vars, b);
        if !y.Computed? then y else JoinCells(m.lib, refID, op, x.cells, y.cells)
    case FuncNode(name, _, args) =>
      var xs := EvalArgs(m, refID, vars, args);
      match xs
      case ArgsFailed(message) => Failed(message)
      case ArgsPanicked => Panicked
      case ArgsComputed(cells) => if Fits(m.g, name, args) then Call(m.fs, name, refID, cells) else Panicked
  }

  function Call(fs: Functions, name: string, refID: string, args: seq<Cells>): Outcome
  {
    if args == [] then Computed([Some(Scalar(refID, fs.constant(name)))]) else ApplyCells(fs, name, refID, args[0])
  }

  /** Arguments from left to right; a string counts as one without values. */
  function EvalArgs(m: Machine, refID: string, vars: Vars, args: seq<Node>): (r: ArgsOutcome)
    ensures r.ArgsComputed? ==> |r.args| == |args|
  {
    if args == [] then ArgsComputed([])
    else
      var first := if args[0].StringNode? then Computed([]) else Eval(m, refID, vars, args[0]);
      match first
      case Failed(message) => ArgsFailed(message)
      case Panicked => ArgsPanicked
      case Computed(cells) =>
        var rest := EvalArgs(m, refID, vars, args[1..]);
        if rest.ArgsComputed? then ArgsComputed([cells] + rest.args) else rest
  }

  /** The table of built-in functions: none or one argument, and that one of any kind of numbers. */
  ghost predicate Builtin(g: Grammar)
  {
    forall name | name in g.funcs :: g.funcs[name].args == [] || g.funcs[name].args == [TypeVariantSet]
  }

  // ------------------------------------------------------------ classification

  /**
    What an expression comes to when one variable holds NoData, alone or followed by a scalar, and
    every other variable holds one scalar. No data and no library is needed to tell.
  */
  datatype Class = Empty | Data | Missing | Nil | Fails | Panics

  predicate Stops(c: Class)
  {
    c.Fails? || c.Panics?
  }

  function Join(two: bool, x: Class, y: Class): Class
  {
    if x.Empty? || y.Empty? then Empty
    else if x.Nil? then Panics
    else if x.Missing? then (if !two || y.Data? then Empty else if y.Nil? then Panics else Fails)
    else if y.Nil? then Panics
    else if y.Missing? then Empty
    else Data
  }

  function Classify(g: Grammar, missing: string, two: bool, n: Node): Class
  {
    match n
    case ScalarNode(_) => Data
    case StringNode(_) => Fails
    case VarNode(name) => if name == missing then Missing else Data
    case UnaryNode(_, a) =>
      var c := Classify(g, missing, two, a);
      if c.Nil? then Panics else c
    case BinaryNode(_, a, b) =>
      var x := Classify(g, missing, two, a);
      if Stops(x) then x
      else
        var y := Classify(g, missing, two, b);
        if Stops(y) then y else Join(two, x, y)
    case FuncNode(name, _, args) =>
      var c := ClassifyArgs(g, missing, two, args);
      if Stops(c) then c
      else if !Fits(g, name, args) then Panics
      else if args == [] then Data
      else if c.Missing? then Nil
      else if c.Nil? then Panics
      else c
  }

  /** The class of the first argument, unless some argument stops the evaluation. */
  function ClassifyArgs(g: Grammar, missing: string, two: bool, args: seq<Node>): Class
  {
    if args == [] then Empty
    else
      var first := if args[0].StringNode? then Empty else Classify(g, missing, two, args[0]);
      if Stops(first) then first
      else
        var rest := ClassifyArgs(g, missing, two, args[1..]);
        if Stops(rest) then rest else first
  }

  // ------------------------------------------- the classes are what they stand for

  predicate IsScalar(c: Option<Value>)
  {
    c.Some? && c.value.Scalar?
  }

  /** The front of a result, alone or with a scalar after it. */
  predicate Fronted(two: bool, front: Option<Value>, cells: Cells)
  {
    |cells| == (if two then 2 else 1) && cells[0] == front && (two ==> IsScalar(cells[1]))
  }

  predicate Shows(two: bool, c: Class, r: Outcome)
  {
    match c
    case Empty => r == Computed([])
    case Data => r.Computed? && |r.cells| == 1 && IsScalar(r.cells[0])
    case Missing => r.Computed? && Fronted(two, Some(NoData), r.cells)
    case Nil => r.Computed? && Fronted(two, None, r.cells)
    case Fails => r.Failed?
    case Panics => r.Panicked?
  }

  function Sample(missing: bool, two: bool): Results
  {
    var scalar := Scalar("", Some(ONE));
    if !missing then [scalar] else if two then [NoData, scalar] else [NoData]
  }

  /** The variables of the class: `missing` holds NoData, the others one scalar each. */
  function SampleVars(missing: string, two: bool, names: seq<string>): Vars
  {
    map x | x in names :: Sample(x == missing, two)
  }

  ghost predicate Samples(vars: Vars, missing: string, two: bool, names: seq<string>)
  {
    forall x | x in names :: Lookup(vars, x) == Sample(x == missing, two)
  }

  lemma UnaryTwo(refID: string, op: string, x: Option<Value>, y: Option<Value>)
    ensures UnaryCells(refID, op, [x]) ==
      if x.None? then Panicked else Lifted(UnaryOf(refID, op, x.value))
    ensures UnaryCells(refID, op, [x, y]) ==
      var first := UnaryCells(refID, op, [x]);
      if !first.Computed? then first else if y.None? then Panicked
      else
        var v := UnaryValue(refID, op, y.value);
        if v.Err? then Failed(v.message) else Computed(first.cells + [Some(v.value)])
  {
    hide UnaryValue;
    assert [x][..0] == [] && [x, y][..1] == [x];
    assert UnaryCells(refID, op, []) == Computed([]);
  }

  function UnaryOf(refID: string, op: string, v: Value): Result<Results>
  {
    var r := UnaryValue(refID, op, v);
    if r.Err? then Err(r.message) else Ok([r.value])
  }

  lemma ShowsUnary(refID: string, op: string, two: bool, c: Class, r: Outcome)
    requires (op == "!" || op == "-") && Shows(two, c, r) && !Stops(c)
    ensures Shows(two, if c.Nil? then Panics else c, UnaryCells(refID, op, r.cells))
  {
    if !c.Empty? {
      UnaryTwo(refID, op, r.cells[0], if |r.cells| > 1 then r.cells[1] else None);
      assert r.cells == if |r.cells| > 1 then [r.cells[0], r.cells[1]] else [r.cells[0]];
    }
  }

  lemma ApplyTwo(fs: Functions, name: string, refID: string, x: Option<Value>, y: Option<Value>)
    ensures ApplyCells(fs, name, refID, [x]) ==
      if x.None? then Panicked else Computed([ApplyValue(fs, name, refID, x.value)])
    ensures ApplyCells(fs, name, refID, [x, y]) ==
      if x.None? || y.None? then Panicked
      else Computed([ApplyValue(fs, name, refID, x.value), ApplyValue(fs, name, refID, y.value)])
  {
    hide ApplyValue;
    assert [x][..0] == [] && [x, y][..1] == [x];
    assert ApplyCells(fs, name, refID, []) == Computed([]);
  }

  lemma ShowsApply(fs: Functions, name: string, refID: string, two: bool, c: Class, r: Outcome)
    requires Shows(two, c, r) && !Stops(c)
    ensures Shows(two, if c.Missing? then Nil else if c.Nil? then Panics else c, ApplyCells(fs, name, refID, r.cells))
  {
    if !c.Empty? {
      ApplyTwo(fs, name, refID, r.cells[0], if |r.cells| > 1 then r.cells[1] else None);
      assert r.cells == if |r.cells| > 1 then [r.cells[0], r.cells[1]] else [r.cells[0]];
    }
  }

  lemma KnownNeverFails(lib: Library, op: string, a: Option<Float>, b: Option<Float>)
    requires KnownBinary(op)
    ensures NullableOp(lib, op, a, b).Ok?
  {
  }

  lemma UnionsOfScalars(x: Value, y: Value)
    requires x.Scalar? && y.Scalar?
    ensures Unions([x], [y]) == [Union(map[], x, y)]
  {
    assert [x][..0] == [] && [y][..0] == [];
    assert UnionsWith(x, []) == [] && UnionsOf([], [y]) == [];
    assert UnionsWith(x, [y]) == [Union(map[], x, y)];
  }

  lemma BinaryAllOfOne(lib: Library, refID: string, op: string, u: Union, v: Value)
    requires BinaryValue(lib, refID, op, u) == Ok(v)
    ensures BinaryAll(lib, refID, op, [u]) == Ok([v])
  {
    BinaryAllMaps(lib, refID, op, [u], [v]);
  }

  lemma JoinScalars(lib: Library, refID: string, op: string, x: Value, y: Value)
    requires KnownBinary(op) && x.Scalar? && y.Scalar?
    ensures var r := BinaryAll(lib, refID, op, Unions([x], [y])); r.Ok? && |r.value| == 1 && r.value[0].Scalar?
  {
    hide Unions;
    hide NullableOp;
    hide BinaryAll;
    KnownNeverFails(lib, op, x.value, y.value);
    UnionsOfScalars(x, y);
    var f := NullableOp(lib, op, x.value, y.value).value;
    BinaryAllOfOne(lib, refID, op, Union(map[], x, y), Scalar(refID, f));
  }

  /** NoData meets everything, and cannot be joined with anything. */
  lemma NoDataFails(lib: Library, refID: string, op: string, xs: Results, ys: Results, i: nat, j: nat)
    requires i < |xs| && j < |ys| && (xs[i].NoData? || ys[j].NoData?)
    ensures BinaryAll(lib, refID, op, UnionsOf(xs, ys)).Err?
  {
    hide UnionsOf;
    hide BinaryAll;
    var labels := if xs[i].NoData? then ys[j].GetLabels() else xs[i].GetLabels();
    var w := Union(labels, xs[i], ys[j]);
    NoDataMeets(xs[i], ys[j]);
    assert Pairs(xs[i], ys[j], w);
    JoinIsMeetings(xs, ys, w);
    var k :| 0 <= k < |UnionsOf(xs, ys)| && UnionsOf(xs, ys)[k] == w;
    BinaryAllFails(lib, refID, op, UnionsOf(xs, ys), k);
  }

  lemma NoDataMeets(x: Value, y: Value)
    requires x.NoData? || y.NoData?
    ensures JoinLabels(x.GetLabels(), y.GetLabels()) == Some(if x.NoData? then y.GetLabels() else x.GetLabels())
  {
    if |x.GetLabels()| == 0 {
      assert x.GetLabels() == map[];
    }
    if |y.GetLabels()| == 0 {
      assert y.GetLabels() == map[];
    }
  }

  lemma ShowsJoin(lib: Library, refID: string, op: string, two: bool, x: Class, y: Class, r: Outcome, r': Outcome)
    requires KnownBinary(op) && Shows(two, x, r) && Shows(two, y, r') && !Stops(x) && !Stops(y)
    ensures Shows(two, Join(two, x, y), JoinCells(lib, refID, op, r.cells, r'.cells))
  {
    hide BinaryAll;
    hide UnionsOf;
    hide KnownBinary;
    if x.Data? && y.Data? {
      JoinScalars(lib, refID, op, r.cells[0].value, r'.cells[0].value);
      assert Bare(r.cells) == [r.cells[0].value] && Bare(r'.cells) == [r'.cells[0].value];
    } else if x.Missing? && y.Missing? && two {
      assert Unions(Bare(r.cells), Bare(r'.cells)) == UnionsOf(Bare(r.cells), Bare(r'.cells));
      NoDataFails(lib, refID, op, Bare(r.cells), Bare(r'.cells), 0, 0);
    }
  }

  /** On the sample variables, every sound expression comes to exactly its class, whatever the library. */
  lemma {:induction false} ClassIsExact(m: Machine, refID: string, missing: string, two: bool, vars: Vars, n: Node)
    requires Builtin(m.g) && Sound(n) && Samples(vars, missing, two, VarsOf(n))
    ensures Shows(two, Classify(m.g, missing, two, n), Eval(m, refID, vars, n))
  {
    match n {
      case VarNode(name) => assert name in VarsOf(n);
      case UnaryNode(op, a) =>
        ClassIsExact(m, refID, missing, two, vars, a);
        var c := Classify(m.g, missing, two, a);
        if !Stops(c) {
          ShowsUnary(refID, op, two, c, Eval(m, refID, vars, a));
        }
      case BinaryNode(op, a, b) =>
        ClassIsExact(m, refID, missing, two, vars, a);
        ClassIsExact(m, refID, missing, two, vars, b);
        var x, y := Classify(m.g, missing, two, a), Classify(m.g, missing, two, b);
        if !Stops(x) && !Stops(y) {
          ShowsJoin(m.lib, refID, op, two, x, y, Eval(m, refID, vars, a), Eval(m, refID, vars, b));
        }
      case FuncNode(name, _, args) =>
        ArgsClassIsExact(m, refID, missing, two, vars, args);
        var c := ClassifyArgs(m.g, missing, two, args);
        var xs := EvalArgs(m, refID, vars, args);
        if !Stops(c) && args != [] {
          ShowsApply(m.fs, name, refID, two, c, Computed(xs.args[0]));
        }
      case _ =>
    }
  }

  lemma {:induction false} ArgsClassIsExact(m: Machine, refID: string, missing: string, two: bool, vars: Vars, args: seq<Node>)
    requires Builtin(m.g) && SoundArgs(args) && Samples(vars, missing, two, VarsOfAll(args))
    ensures
      var c, r := ClassifyArgs(m.g, missing, two, args), EvalArgs(m, refID, vars, args);
      && (c.Panics? <==> r.ArgsPanicked?)
      && (c.Fails? <==> r.ArgsFailed?)
      && (!Stops(c) && args != [] ==> Shows(two, c, Computed(r.args[0])))
  {
    if args != [] {
      if !args[0].StringNode? {
        ClassIsExact(m, refID, missing, two, vars, args[0]);
      }
      ArgsClassIsExact(m, refID, missing, two, vars, args[1..]);
    }
  }
}
