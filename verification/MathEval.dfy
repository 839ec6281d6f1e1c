/**
  Evaluating a parsed expression over the results computed so far: operators on floats, the
  label join of a binary operation's two sides, and the walk over the tree.
*/
module MathEval {
  import opened Wrappers
  import opened MathValues
  import opened MathParser

  // -------------------------------------------------------------------- floats

  function UnaryOp(op: string, a: Float): Result<Float>
  {
    if a.NaN? then Ok(NaN)
    else if op == "!" then Ok(Truth(Same(a, ZERO)))
    else if op == "-" then Ok(Negate(a))
    else Err("unknown unary operator")
  }

  predicate IsArith(op: string)
  {
    op in {"+", "*", "-", "/", "**", "%"}
  }

  /** The logical operators short-circuit before the NaN test, and a NaN on the left counts as non-zero. */
  function BinaryOp(lib: Library, op: string, a: Float, b: Float): Result<Float>
  {
    if op == "||" && !Same(a, ZERO) then Ok(ONE)
    else if op == "&&" && Same(a, ZERO) then Ok(ZERO)
    else if a.NaN? || b.NaN? then Ok(NaN)
    else if IsArith(op) then Ok(lib.arith(op, a, b))
    else if op == "==" then Ok(Truth(Same(a, b)))
    else if op == "!=" then Ok(Truth(!Same(a, b)))
    else if op == ">" then Ok(Truth(Less(b, a)))
    else if op == "<" then Ok(Truth(Less(a, b)))
    else if op == ">=" then Ok(Truth(!Less(a, b)))
    else if op == "<=" then Ok(Truth(!Less(b, a)))
    else if op == "||" then Ok(Truth(!Same(a, ZERO) || !Same(b, ZERO)))
    else if op == "&&" then Ok(Truth(!Same(a, ZERO) && !Same(b, ZERO)))
    else Err("unknown operator")
  }

  /** A null on either side gives null. */
  function NullableOp(lib: Library, op: string, a: Option<Float>, b: Option<Float>): Result<Option<Float>>
  {
    if a.None? || b.None? then Ok(None)
    else
      var r := BinaryOp(lib, op, a.value, b.value);
      if r.Err? then Err(r.message) else Ok(Some(r.value))
  }

  // -------------------------------------------------------------------- series

  function UnaryPoints(op: string, points: seq<Point>): Result<seq<Point>>
  {
    if points == [] then Ok([])
    else
      var rest, p := UnaryPoints(op, points[..|points| - 1]), points[|points| - 1];
      if rest.Err? then rest
      else if p.value.None? then Ok(rest.value + [p])
      else
        var f := UnaryOp(op, p.value.value);
        if f.Err? then Err(f.message) else Ok(rest.value + [Point(p.time, Some(f.value))])
  }

  /** A series against one number, on the side `seriesFirst` says. */
  function PointsWithNumber(lib: Library, op: string, points: seq<Point>, v: Option<Float>, seriesFirst: bool)
    : Result<seq<Point>>
  {
    if points == [] then Ok([])
    else
      var rest, p := PointsWithNumber(lib, op, points[..|points| - 1], v, seriesFirst), points[|points| - 1];
      if rest.Err? then rest
      else
        var f := if seriesFirst then NullableOp(lib, op, p.value, v) else NullableOp(lib, op, v, p.value);
        if f.Err? then Err(f.message) else Ok(rest.value + [Point(p.time, f.value)])
  }

  /** The value a series holds at a time: the last point wins, as in the map the join fills. */
  function ValueAt(points: seq<Point>, time: int): Option<Option<Float>>
  {
    if points == [] then None
    else if points[|points| - 1].time == time then Some(points[|points| - 1].value)
    else ValueAt(points[..|points| - 1], time)
  }

  /** Two series join on equal times; other points are dropped. */
  function JoinPoints(lib: Library, op: string, a: seq<Point>, b: seq<Point>): Result<seq<Point>>
  {
    if a == [] then Ok([])
    else
      var rest, p := JoinPoints(lib, op, a[..|a| - 1], b), a[|a| - 1];
      if rest.Err? then rest
      else
        var other := ValueAt(b, p.time);
        if other.None? then rest
        else
          var f := NullableOp(lib, op, p.value, other.value);
          if f.Err? then Err(f.message) else Ok(rest.value + [Point(p.time, f.value)])
  }

  // -------------------------------------------------------------------- unions

  datatype Union = Union(labels: Labels, a: Value, b: Value)

  predicate Contains(big: Labels, small: Labels)
  {
    forall k | k in small :: k in big && big[k] == small[k]
  }

  /** The labels under which two values combine, if they combine. */
  function JoinLabels(a: Labels, b: Labels): Option<Labels>
  {
    if a == b || |a| == 0 || |b| == 0 then Some(if |a| == 0 then b else a)
    else if |a| == |b| then None
    else if Contains(a, b) then Some(a)
    else if Contains(b, a) then Some(b)
    else None
  }

  function UnionsWith(a: Value, bs: Results): seq<Union>
  {
    if bs == [] then []
    else
      var rest, b := UnionsWith(a, bs[..|bs| - 1]), bs[|bs| - 1];
      var labels := JoinLabels(a.GetLabels(), b.GetLabels());
      if labels.Some? then rest + [Union(labels.value, a, b)] else rest
  }

  function UnionsOf(xs: Results, bs: Results): seq<Union>
  {
    if xs == [] then [] else UnionsOf(xs[..|xs| - 1], bs) + UnionsWith(xs[|xs| - 1], bs)
  }

  function Unions(xs: Results, bs: Results): seq<Union>
  {
    if xs == [] || bs == [] then []
    else if (|xs| == 1 || |bs| == 1) && (xs[0].NoData? || bs[0].NoData?) then []
    else
      var all := UnionsOf(xs, bs);
      if all == [] && |xs| == 1 && |bs| == 1 then [Union(map[], xs[0], bs[0])] else all
  }

  // ---------------------------------------------------------------------- walk

  function Wrap(refID: string, labels: Labels, points: Result<seq<Point>>): Result<Value>
  {
    if points.Err? then Err(points.message) else Ok(Series(refID, labels, points.value))
  }

  /** One pair of a binary operation, by the types of its sides. */
  function BinaryValue(lib: Library, refID: string, op: string, u: Union): Result<Value>
  {
    match (u.a, u.b)
    case (Scalar(_, x), Scalar(_, y)) =>
      var f := NullableOp(lib, op, x, y);
      if f.Err? then Err(f.message) else Ok(Scalar(refID, f.value))
    case (Scalar(_, x), Number(_, _, y)) => BinaryNumber(lib, refID, u.labels, op, x, y)
    case (Number(_, _, x), Scalar(_, y)) => BinaryNumber(lib, refID, u.labels, op, x, y)
    case (Number(_, _, x), Number(_, _, y)) => BinaryNumber(lib, refID, u.labels, op, x, y)
    case (Scalar(_, x), Series(_, _, ps)) => Wrap(refID, u.labels, PointsWithNumber(lib, op, ps, x, false))
    case (Number(_, _, x), Series(_, _, ps)) => Wrap(refID, u.labels, PointsWithNumber(lib, op, ps, x, false))
    case (Series(_, _, ps), Scalar(_, y)) => Wrap(refID, u.labels, PointsWithNumber(lib, op, ps, y, true))
    case (Series(_, _, ps), Number(_, _, y)) => Wrap(refID, u.labels, PointsWithNumber(lib, op, ps, y, true))
    case (Series(_, _, ps), Series(_, _, qs)) => Wrap(refID, u.labels, JoinPoints(lib, op, ps, qs))
    case (_, _) => Err("binary operation not implemented")
  }

  function BinaryNumber(lib: Library, refID: string, labels: Labels, op: string, a: Option<Float>, b: Option<Float>): Result<Value>
  {
    var f := NullableOp(lib, op, a, b);
    if f.Err? then Err(f.message) else Ok(Number(refID, labels, f.value))
  }

  function UnaryValue(refID: string, op: string, v: Value): Result<Value>
  {
    match v
    case NoData => Ok(NoData)
    case Series(_, labels, points) => Wrap(refID, labels, UnaryPoints(op, points))
    case Scalar(_, x) =>
      if x.None? then Ok(Scalar(refID, None))
      else
        var f := UnaryOp(op, x.value);
        if f.Err? then Err(f.message) else Ok(Scalar(refID, Some(f.value)))
    case Number(_, labels, x) =>
      if x.None? then Ok(Number(refID, labels, None))
      else
        var f := UnaryOp(op, x.value);
        if f.Err? then Err(f.message) else Ok(Number(refID, labels, Some(f.value)))
  }

  function UnaryAll(refID: string, op: string, vs: Results): Result<Results>
  {
    if vs == [] then Ok([])
    else
      var rest := UnaryAll(refID, op, vs[..|vs| - 1]);
      if rest.Err? then rest
      else
        var v := UnaryValue(refID, op, vs[|vs| - 1]);
        if v.Err? then Err(v.message) else Ok(rest.value + [v.value])
  }

  function BinaryAll(lib: Library, refID: string, op: string, us: seq<Union>): Result<Results>
  {
    if us == [] then Ok([])
    else
      var rest := BinaryAll(lib, refID, op, us[..|us| - 1]);
      if rest.Err? then rest
      else
        var v := BinaryValue(lib, refID, op, us[|us| - 1]);
        if v.Err? then Err(v.message) else Ok(rest.value + [v.value])
  }

  function Walk(lib: Library, refID: string, vars: Vars, n: Node): Result<Results>
  {
    match n
    case ScalarNode(f) => Ok([Scalar(refID, Some(f))])
    case StringNode(_) => Err("can not walk a string")
    case VarNode(name) => Ok(Lookup(vars, name))
    case UnaryNode(op, a) =>
      var r := Walk(lib, refID, vars, a);
      if r.Err? then r else UnaryAll(refID, op, r.value)
    case BinaryNode(op, a, b) =>
      var x := Walk(lib, refID, vars, a);
      if x.Err? then x
      else
        var y := Walk(lib, refID, vars, b);
        if y.Err? then y else BinaryAll(lib, refID, op, Unions(x.value, y.value))
    case FuncNode(name, _, args) =>
      var xs := WalkArgs(lib, refID, vars, args);
      if xs.Err? then Err(xs.message) else lib.call(name, refID, xs.value)
  }

  function WalkArgs(lib: Library, refID: string, vars: Vars, args: seq<Node>): Result<seq<Arg>>
  {
    if args == [] then Ok([])
    else if args[0].StringNode? then
      var rest := WalkArgs(lib, refID, vars, args[1..]);
      if rest.Err? then rest else Ok([ArgText(args[0].text)] + rest.value)
    else
      var r := Walk(lib, refID, vars, args[0]);
      if r.Err? then Err(r.message)
      else
        var rest := WalkArgs(lib, refID, vars, args[1..]);
        if rest.Err? then rest else Ok([ArgResults(r.value)] + rest.value)
  }

  // ------------------------------------------------------------------ locality

  lemma AgreeOnParts(vars: Vars, vars': Vars, a: seq<string>, b: seq<string>)
    requires AgreeOn(vars, vars', a + b)
    ensures AgreeOn(vars, vars', a) && AgreeOn(vars, vars', b)
  {
    forall i | 0 <= i < |a| ensures Lookup(vars, a[i]) == Lookup(vars', a[i]) {
      assert a[i] == (a + b)[i];
    }
    forall i | 0 <= i < |b| ensures Lookup(vars, b[i]) == Lookup(vars', b[i]) {
      assert b[i] == (a + b)[|a| + i];
    }
  }

  /** An expression reads the variables it mentions and no others. */
  lemma {:induction false} WalkIsLocal(lib: Library, refID: string, vars: Vars, vars': Vars, n: Node)
    requires AgreeOn(vars, vars', VarsOf(n))
    ensures Walk(lib, refID, vars, n) == Walk(lib, refID, vars', n)
  {
    match n {
      case VarNode(name) =>
        assert VarsOf(n)[0] == name;
      case UnaryNode(_, a) =>
        WalkIsLocal(lib, refID, vars, vars', a);
      case BinaryNode(_, a, b) =>
        AgreeOnParts(vars, vars', VarsOf(a), VarsOf(b));
        WalkIsLocal(lib, refID, vars, vars', a);
        WalkIsLocal(lib, refID, vars, vars', b);
      case FuncNode(_, _, args) =>
        WalkArgsIsLocal(lib, refID, vars, vars', args);
      case _ =>
    }
  }

  lemma {:induction false} WalkArgsIsLocal(lib: Library, refID: string, vars: Vars, vars': Vars, args: seq<Node>)
    requires AgreeOn(vars, vars', VarsOfAll(args))
    ensures WalkArgs(lib, refID, vars, args) == WalkArgs(lib, refID, vars', args)
  {
    if args != [] {
      AgreeOnParts(vars, vars', VarsOf(args[0]), VarsOfAll(args[1..]));
      WalkIsLocal(lib, refID, vars, vars', args[0]);
      WalkArgsIsLocal(lib, refID, vars, vars', args[1..]);
    }
  }

  // ------------------------------------------------------------- pairs of a join

  /** A pair of the join: two of the values that meet, under their common labels. */
  ghost predicate IsMeeting(xs: Results, bs: Results, w: Union)
  {
    exists i, j :: 0 <= i < |xs| && 0 <= j < |bs| && Pairs(xs[i], bs[j], w)
  }

  predicate Pairs(a: Value, b: Value, w: Union)
  {
    w.a == a && w.b == b && JoinLabels(a.GetLabels(), b.GetLabels()) == Some(w.labels)
  }

  lemma {:induction false} RowIsMeetings(a: Value, bs: Results, w: Union)
    ensures w in UnionsWith(a, bs) <==> exists j :: 0 <= j < |bs| && Pairs(a, bs[j], w)
  {
    if bs != [] {
      hide JoinLabels;
      var last := |bs| - 1;
      assert forall j | 0 <= j < last :: bs[..last][j] == bs[j];
      RowIsMeetings(a, bs[..last], w);
      assert Pairs(a, bs[last], w) ==> exists j :: 0 <= j < |bs| && Pairs(a, bs[j], w);
    }
  }

  lemma {:induction false} JoinIsMeetings(xs: Results, bs: Results, w: Union)
    ensures w in UnionsOf(xs, bs) <==> IsMeeting(xs, bs, w)
  {
    if xs != [] {
      hide Pairs;
      var last := |xs| - 1;
      assert forall i | 0 <= i < last :: xs[..last][i] == xs[i];
      JoinIsMeetings(xs[..last], bs, w);
      RowIsMeetings(xs[last], bs, w);
    }
  }

  lemma {:induction false} BinaryAllMaps(lib: Library, refID: string, op: string, us: seq<Union>, out: Results)
    requires |us| == |out| && forall i | 0 <= i < |us| :: BinaryValue(lib, refID, op, us[i]) == Ok(out[i])
    ensures BinaryAll(lib, refID, op, us) == Ok(out)
  {
    if us != [] {
      var last := |us| - 1;
      BinaryAllMaps(lib, refID, op, us[..last], out[..last]);
      assert out == out[..last] + [out[last]];
    }
  }

  lemma {:induction false} BinaryAllFails(lib: Library, refID: string, op: string, us: seq<Union>, i: nat)
    requires i < |us| && BinaryValue(lib, refID, op, us[i]).Err?
    ensures BinaryAll(lib, refID, op, us).Err?
  {
    hide BinaryValue;
    if i < |us| - 1 {
      BinaryAllFails(lib, refID, op, us[..|us| - 1], i);
    }
  }
}
