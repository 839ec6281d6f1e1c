/** What the compiled threshold computes, value by value and point by point. */
module ThresholdVerdict {
  import opened Wrappers
  import opened MathValues
  import opened MathParser
  import opened MathEval
  import opened ThresholdText
  import opened Threshold

  /** The predicate a threshold stands for, with its bounds as they are read back. */
  datatype Test = Above(c: Float) | Below(c: Float) | Both(lo: Float, hi: Float) | Either(lo: Float, hi: Float)

  /**
    One and zero for true and false. A NaN stays NaN except outside a range, where a NaN that meets
    the first bound counts as outside; a second bound is not looked at when the first one decides.
  */
  function Verdict(t: Test, f: Float): Float
  {
    match t
    case Above(c) => if f.NaN? || c.NaN? then NaN else Truth(Less(c, f))
    case Below(c) => if f.NaN? || c.NaN? then NaN else Truth(Less(f, c))
    case Both(lo, hi) =>
      if f.NaN? || lo.NaN? || (hi.NaN? && Less(lo, f)) then NaN else Truth(Less(lo, f) && Less(f, hi))
    case Either(lo, hi) =>
      if f.NaN? || lo.NaN? then ONE
      else if hi.NaN? && !Less(f, lo) then NaN
      else Truth(Less(f, lo) || Less(hi, f))
  }

  function LiftFloat(t: Test, v: Option<Float>): Option<Float>
  {
    if v.None? then None else Some(Verdict(t, v.value))
  }

  function LiftPoints(t: Test, points: seq<Point>): (r: seq<Point>)
    ensures |r| == |points|
    ensures forall i | 0 <= i < |r| :: r[i] == Point(points[i].time, LiftFloat(t, points[i].value))
  {
    seq(|points|, i requires 0 <= i < |points| => Point(points[i].time, LiftFloat(t, points[i].value)))
  }

  /** The verdict on one value: same kind, same labels, same times. */
  function Lift(refID: string, t: Test, v: Value): Value
  {
    match v
    case Scalar(_, x) => Scalar(refID, LiftFloat(t, x))
    case Number(_, labels, x) => Number(refID, labels, LiftFloat(t, x))
    case Series(_, labels, points) => Series(refID, labels, LiftPoints(t, points))
    case NoData => NoData
  }

  function LiftAll(refID: string, t: Test, vs: Results): (r: Results)
    ensures |r| == |vs| && forall i | 0 <= i < |r| :: r[i] == Lift(refID, t, vs[i])
  {
    seq(|vs|, i requires 0 <= i < |vs| => Lift(refID, t, vs[i]))
  }

  function TestWith(f: ThresholdFunc, lo: Float, hi: Float): Test
  {
    match f
    case IsAbove => Above(lo)
    case IsBelow => Below(lo)
    case IsWithinRange => Both(lo, hi)
    case IsOutsideRange => Either(lo, hi)
    case Unsupported => Above(lo)
  }

  /** The test on the bounds as printed. */
  function TestOf(f: ThresholdFunc, args: seq<real>): Test
    requires EnoughArgs(f, args)
  {
    TestWith(f, Fin(Rounded(args[0])), if |args| > 1 then Fin(Rounded(args[1])) else ZERO)
  }

  /** The test on the bounds as read back. */
  function TestRead(g: Grammar, f: ThresholdFunc, args: seq<real>): Test
    requires EnoughArgs(f, args) && ReadsAll(g, f, args)
  {
    TestWith(f, BoundOf(g, args[0]).Value(),
             if f.IsWithinRange? || f.IsOutsideRange? then BoundOf(g, args[1]).Value() else ZERO)
  }

  /** An exact reader reads back what was printed. */
  lemma ExactTest(g: Grammar, f: ThresholdFunc, args: seq<real>)
    requires EnoughArgs(f, args) && ReadsDecimals(g)
    ensures ReadsAll(g, f, args) && TestRead(g, f, args) == TestOf(f, args)
  {
    hide Rounded;
    hide Reads;
    hide BoundOf;
    ExactBound(g, args[0]);
    if |args| > 1 {
      ExactBound(g, args[1]);
    }
  }

  predicate HasData(vs: Results)
  {
    forall i | 0 <= i < |vs| :: !vs[i].NoData?
  }

  // ------------------------------------------------------------ one comparison

  function Comparing(op: string, c: Float): Test
    requires op in {">", "<"}
  {
    if op == ">" then Above(c) else Below(c)
  }

  lemma CompareFloat(lib: Library, op: string, v: Option<Float>, c: Float)
    requires op in {">", "<"}
    ensures NullableOp(lib, op, v, Some(c)) == Ok(LiftFloat(Comparing(op, c), v))
  {
  }

  lemma {:induction false} ComparePoints(lib: Library, op: string, points: seq<Point>, c: Float)
    requires op in {">", "<"}
    ensures PointsWithNumber(lib, op, points, Some(c), true) == Ok(LiftPoints(Comparing(op, c), points))
  {
    if points != [] {
      var init, p := points[..|points| - 1], points[|points| - 1];
      ComparePoints(lib, op, init, c);
      CompareFloat(lib, op, p.value, c);
      assert LiftPoints(Comparing(op, c), points) ==
        LiftPoints(Comparing(op, c), init) + [Point(p.time, LiftFloat(Comparing(op, c), p.value))];
    }
  }

  lemma CompareValue(lib: Library, refID: string, op: string, v: Value, c: Float)
    requires op in {">", "<"} && !v.NoData?
    ensures BinaryValue(lib, refID, op, Union(v.GetLabels(), v, Scalar(refID, Some(c)))) ==
      Ok(Lift(refID, Comparing(op, c), v))
  {
    match v {
      case Series(_, _, points) => ComparePoints(lib, op, points, c);
      case Scalar(_, x) => CompareFloat(lib, op, x, c);
      case Number(_, _, x) => CompareFloat(lib, op, x, c);
      case NoData =>
    }
  }

  /** Each value of the left side paired with the one scalar on the right. */
  function PairAll(vs: Results, s: Value): (us: seq<Union>)
    ensures |us| == |vs| && forall i | 0 <= i < |us| :: us[i] == Union(vs[i].GetLabels(), vs[i], s)
  {
    seq(|vs|, i requires 0 <= i < |vs| => Union(vs[i].GetLabels(), vs[i], s))
  }

  lemma PairOne(v: Value, s: Value)
    requires s.Scalar?
    ensures UnionsWith(v, [s]) == [Union(v.GetLabels(), v, s)]
  {
    assert [s][..0] == [];
    var l := v.GetLabels();
    assert JoinLabels(l, map[]) == Some(l) by {
      if |l| == 0 {
        assert l == map[];
      }
    }
    assert UnionsWith(v, []) == [];
  }

  lemma {:induction false} PairWithScalar(vs: Results, s: Value)
    requires s.Scalar?
    ensures UnionsOf(vs, [s]) == PairAll(vs, s)
  {
    if vs != [] {
      var init, v := vs[..|vs| - 1], vs[|vs| - 1];
      PairWithScalar(init, s);
      PairOne(v, s);
      assert PairAll(vs, s) == PairAll(init, s) + [Union(v.GetLabels(), v, s)];
    }
  }

  lemma WalkSigned(lib: Library, refID: string, vars: Vars, b: Bound)
    ensures Walk(lib, refID, vars, SignedNode(b)) == Ok([Scalar(refID, Some(b.Value()))])
  {
    if b.negative {
      var vs := [Scalar(refID, Some(b.read))];
      assert vs[..0] == [];
      assert UnaryValue(refID, "-", vs[0]) == Ok(Scalar(refID, Some(Negate(b.read))));
      var none: Results := [];
      assert UnaryAll(refID, "-", vs[..0]) == Ok(none);
      assert UnaryAll(refID, "-", vs) == Ok(none + [Scalar(refID, Some(Negate(b.read)))]);
      assert none + [Scalar(refID, Some(Negate(b.read)))] == [Scalar(refID, Some(Negate(b.read)))];
      assert Walk(lib, refID, vars, ScalarNode(b.read)) == Ok(vs);
    }
  }

  /** `$A > c` or `$A < c`: one verdict per value, in order. */
  lemma WalkCondition(lib: Library, refID: string, vars: Vars, name: string, op: string, b: Bound)
    requires op in {">", "<"} && HasData(Lookup(vars, name))
    ensures Walk(lib, refID, vars, ConditionNode(name, op, b)) ==
      Ok(LiftAll(refID, Comparing(op, b.Value()), Lookup(vars, name)))
  {
    var vs := Lookup(vars, name);
    var s := Scalar(refID, Some(b.Value()));
    WalkSigned(lib, refID, vars, b);
    PairWithScalar(vs, s);
    assert Unions(vs, [s]) == PairAll(vs, s);
    forall i | 0 <= i < |vs|
      ensures BinaryValue(lib, refID, op, PairAll(vs, s)[i]) == Ok(Lift(refID, Comparing(op, b.Value()), vs[i]))
    {
      CompareValue(lib, refID, op, vs[i], b.Value());
    }
    BinaryAllMaps(lib, refID, op, PairAll(vs, s), LiftAll(refID, Comparing(op, b.Value()), vs));
  }

  /** A result that starts with NoData compares to nothing at all. */
  lemma WalkNoData(lib: Library, refID: string, vars: Vars, name: string, op: string, b: Bound)
    requires op in {">", "<"} && (Lookup(vars, name) == [] || Lookup(vars, name)[0].NoData?)
    ensures Walk(lib, refID, vars, ConditionNode(name, op, b)) == Ok([])
  {
    WalkSigned(lib, refID, vars, b);
  }

  /** NoData after a first value with data cannot be compared. */
  lemma WalkLateNoData(lib: Library, refID: string, vars: Vars, name: string, op: string, b: Bound)
    requires op in {">", "<"} && Lookup(vars, name) != [] && !Lookup(vars, name)[0].NoData? && !HasData(Lookup(vars, name))
    ensures Walk(lib, refID, vars, ConditionNode(name, op, b)).Err?
  {
    var vs := Lookup(vars, name);
    var s := Scalar(refID, Some(b.Value()));
    WalkSigned(lib, refID, vars, b);
    PairWithScalar(vs, s);
    assert Unions(vs, [s]) == PairAll(vs, s);
    var i :| 0 <= i < |vs| && vs[i].NoData?;
    BinaryAllFails(lib, refID, op, PairAll(vs, s), i);
  }

  // ------------------------------------------------------------------- meaning

  /** The predicate the user asked for, on real numbers. */
  predicate Intended(f: ThresholdFunc, args: seq<real>, r: real)
    requires EnoughArgs(f, args)
  {
    match f
    case IsAbove => r > args[0]
    case IsBelow => r < args[0]
    case IsWithinRange => args[0] < r < args[1]
    case IsOutsideRange => r < args[0] || r > args[1]
    case Unsupported => false
  }

  predicate Far(r: real, c: real)
  {
    r - c > 0.0000005 || c - r > 0.0000005
  }

  /** Away from every bound by more than half a millionth, the verdict is the intended one. */
  lemma FarValuesGetIntendedVerdict(f: ThresholdFunc, args: seq<real>, r: real)
    requires EnoughArgs(f, args) && Far(r, args[0])
    requires f.IsWithinRange? || f.IsOutsideRange? ==> Far(r, args[1])
    ensures Verdict(TestOf(f, args), Fin(r)) == Truth(Intended(f, args, r))
  {
    hide Rounded;
    RoundingError(args[0]);
    if f.IsWithinRange? || f.IsOutsideRange? {
      RoundingError(args[1]);
    }
  }

  function Min(a: real, b: real): real { if a < b then a else b }

  function Max(a: real, b: real): real { if a < b then b else a }

  /** `r > c` and `r > Rounded(c)` differ. */
  predicate AboveFlips(c: real, r: real)
  {
    Min(c, Rounded(c)) < r <= Max(c, Rounded(c))
  }

  /** `r < c` and `r < Rounded(c)` differ. */
  predicate BelowFlips(c: real, r: real)
  {
    Min(c, Rounded(c)) <= r < Max(c, Rounded(c))
  }

  /**
    Exactly when the verdict is not the intended one. For one bound, when the value lies between
    the bound and its printed form; for a range, when that happens at one end and the other end
    does not decide, or at both ends and they do not make up for each other.
  */
  predicate Misjudged(f: ThresholdFunc, args: seq<real>, r: real)
    requires EnoughArgs(f, args)
  {
    match f
    case IsAbove => AboveFlips(args[0], r)
    case IsBelow => BelowFlips(args[0], r)
    case IsWithinRange =>
      var lo, hi := AboveFlips(args[0], r), BelowFlips(args[1], r);
      if lo && hi then args[0] < r <==> r < args[1] else (lo && r < args[1]) || (hi && args[0] < r)
    case IsOutsideRange =>
      var lo, hi := BelowFlips(args[0], r), AboveFlips(args[1], r);
      if lo && hi then r < args[0] <==> args[1] < r else (lo && r <= args[1]) || (hi && args[0] <= r)
    case Unsupported => false
  }

  lemma VerdictIntendedIff(f: ThresholdFunc, args: seq<real>, r: real)
    requires EnoughArgs(f, args)
    ensures Verdict(TestOf(f, args), Fin(r)) == Truth(Intended(f, args, r)) <==> !Misjudged(f, args, r)
  {
    hide Rounded;
  }
}
