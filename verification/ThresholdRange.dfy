/**
  What a range threshold computes: two comparisons of one variable, joined by `&&` or `||`. The
  join pairs values by their labels and points by their times.
*/
module ThresholdRange {
  import opened Wrappers
  import opened MathValues
  import opened MathLexer
  import opened MathParser
  import opened MathEval
  import opened ThresholdText
  import opened Threshold
  import opened ThresholdVerdict

  /** `t` and `u` joined by `&&` or `||`. */
  predicate Joins(join: string, t: Test, u: Test, both: Test)
  {
    || (join == "&&" && t.Above? && u.Below? && both == Both(t.c, u.c))
    || (join == "||" && t.Below? && u.Above? && both == Either(t.c, u.c))
  }

  // ------------------------------------------------------------------- points

  /**
    The joint verdict of a range on two floats: the first bound judges the one, the second bound
    the other.
  */
  function PairVerdict(both: Test, one: Option<Float>, other: Option<Float>): Option<Float>
    requires IsPair(both)
  {
    if one.None? || other.None? then None
    else
      var first := Verdict(if both.Both? then Above(both.lo) else Below(both.lo), one.value);
      var second := Verdict(if both.Both? then Below(both.hi) else Above(both.hi), other.value);
      if both.Both? && first == ZERO then Some(ZERO)
      else if both.Either? && first != ZERO then Some(ONE)
      else if first.NaN? || second.NaN? then Some(NaN)
      else Some(second)
  }

  lemma PairIsVerdict(both: Test, v: Option<Float>)
    requires IsPair(both)
    ensures PairVerdict(both, v, v) == LiftFloat(both, v)
  {
  }

  lemma JoinFloats(lib: Library, join: string, t: Test, u: Test, both: Test, one: Option<Float>, other: Option<Float>)
    requires Joins(join, t, u, both)
    ensures NullableOp(lib, join, LiftFloat(t, one), LiftFloat(u, other)) == Ok(PairVerdict(both, one, other))
  {
  }

  predicate IsPair(both: Test)
  {
    both.Both? || both.Either?
  }

  // ------------------------------------------------------------------- series

  /** A series against one number. */
  function NumberPoints(both: Test, points: seq<Point>, v: Option<Float>, seriesFirst: bool): (r: seq<Point>)
    requires IsPair(both)
    ensures |r| == |points|
    ensures forall i | 0 <= i < |r| :: r[i] == Point(points[i].time,
      if seriesFirst then PairVerdict(both, points[i].value, v) else PairVerdict(both, v, points[i].value))
  {
    seq(|points|, i requires 0 <= i < |points| => Point(points[i].time,
      if seriesFirst then PairVerdict(both, points[i].value, v) else PairVerdict(both, v, points[i].value)))
  }

  lemma {:induction false} JoinNumber(lib: Library, join: string, t: Test, u: Test, both: Test, points: seq<Point>,
                                      v: Option<Float>, seriesFirst: bool)
    requires Joins(join, t, u, both)
    ensures PointsWithNumber(lib, join, LiftPoints(if seriesFirst then t else u, points),
                             LiftFloat(if seriesFirst then u else t, v), seriesFirst) ==
      Ok(NumberPoints(both, points, v, seriesFirst))
  {
    if points != [] {
      hide PairVerdict;
      hide NullableOp;
      hide LiftFloat;
      hide Joins;
      var last := |points| - 1;
      var lifted := LiftPoints(if seriesFirst then t else u, points);
      assert lifted[..last] == LiftPoints(if seriesFirst then t else u, points[..last]);
      JoinNumber(lib, join, t, u, both, points[..last], v, seriesFirst);
      assert NumberPoints(both, points, v, seriesFirst) ==
        NumberPoints(both, points[..last], v, seriesFirst) + [NumberPoints(both, points, v, seriesFirst)[last]];
      if seriesFirst {
        JoinFloats(lib, join, t, u, both, points[last].value, v);
      } else {
        JoinFloats(lib, join, t, u, both, v, points[last].value);
      }
    }
  }

  /** Two series: every point of the first whose time the second has, against the last point of that time. */
  function SharedPoints(both: Test, a: seq<Point>, b: seq<Point>): seq<Point>
    requires IsPair(both)
  {
    if a == [] then []
    else
      var rest, p := SharedPoints(both, a[..|a| - 1], b), a[|a| - 1];
      var other := ValueAt(b, p.time);
      if other.None? then rest else rest + [Point(p.time, PairVerdict(both, p.value, other.value))]
  }

  lemma {:induction false} ValueAtLifted(t: Test, points: seq<Point>, time: int)
    ensures
      var v := ValueAt(points, time);
      ValueAt(LiftPoints(t, points), time) == if v.Some? then Some(LiftFloat(t, v.value)) else None
  {
    if points != [] {
      hide LiftFloat;
      var last := |points| - 1;
      assert LiftPoints(t, points)[..last] == LiftPoints(t, points[..last]);
      ValueAtLifted(t, points[..last], time);
    }
  }

  lemma {:induction false} JoinSeries(lib: Library, join: string, t: Test, u: Test, both: Test, a: seq<Point>, b: seq<Point>)
    requires Joins(join, t, u, both)
    ensures JoinPoints(lib, join, LiftPoints(t, a), LiftPoints(u, b)) == Ok(SharedPoints(both, a, b))
  {
    if a != [] {
      hide PairVerdict;
      hide NullableOp;
      hide LiftFloat;
      hide ValueAt;
      var last := |a| - 1;
      assert LiftPoints(t, a)[..last] == LiftPoints(t, a[..last]);
      JoinSeries(lib, join, t, u, both, a[..last], b);
      ValueAtLifted(u, b, a[last].time);
      if ValueAt(b, a[last].time).Some? {
        JoinFloats(lib, join, t, u, both, a[last].value, ValueAt(b, a[last].time).value);
      }
    }
  }

  predicate DistinctTimes(points: seq<Point>)
  {
    forall i, j | 0 <= i < j < |points| :: points[i].time != points[j].time
  }

  lemma {:induction false} ValueAtIndex(points: seq<Point>, i: nat)
    requires DistinctTimes(points) && i < |points|
    ensures ValueAt(points, points[i].time) == Some(points[i].value)
  {
    var last := |points| - 1;
    if i < last {
      ValueAtIndex(points[..last], i);
    }
  }

  /** Against itself, a series without repeated times gets the verdict of the range on every point. */
  lemma {:induction false} SharedWithItself(both: Test, points: seq<Point>, n: nat)
    requires IsPair(both) && DistinctTimes(points) && n <= |points|
    ensures SharedPoints(both, points[..n], points) == LiftPoints(both, points)[..n]
  {
    if n > 0 {
      hide PairVerdict;
      hide LiftFloat;
      SharedWithItself(both, points, n - 1);
      assert points[..n][..n - 1] == points[..n - 1];
      ValueAtIndex(points, n - 1);
      PairIsVerdict(both, points[n - 1].value);
      assert LiftPoints(both, points)[..n] == LiftPoints(both, points)[..n - 1] + [LiftPoints(both, points)[n - 1]];
    }
  }

  // ------------------------------------------------------------------- values

  /** The joint verdict on two values that meet: a series if one of them is, else a number, else a scalar. */
  function PairValue(refID: string, both: Test, w: Union): Value
    requires IsPair(both)
  {
    match (w.a, w.b)
    case (Series(_, _, ps), Series(_, _, qs)) => Series(refID, w.labels, SharedPoints(both, ps, qs))
    case (Series(_, _, ps), Number(_, _, y)) => Series(refID, w.labels, NumberPoints(both, ps, y, true))
    case (Series(_, _, ps), Scalar(_, y)) => Series(refID, w.labels, NumberPoints(both, ps, y, true))
    case (Number(_, _, x), Series(_, _, ps)) => Series(refID, w.labels, NumberPoints(both, ps, x, false))
    case (Scalar(_, x), Series(_, _, ps)) => Series(refID, w.labels, NumberPoints(both, ps, x, false))
    case (Scalar(_, x), Scalar(_, y)) => Scalar(refID, PairVerdict(both, x, y))
    case (Scalar(_, x), Number(_, _, y)) => Number(refID, w.labels, PairVerdict(both, x, y))
    case (Number(_, _, x), Scalar(_, y)) => Number(refID, w.labels, PairVerdict(both, x, y))
    case (Number(_, _, x), Number(_, _, y)) => Number(refID, w.labels, PairVerdict(both, x, y))
    case (_, _) => NoData
  }

  /** One joint verdict per pair. */
  function PairValues(refID: string, both: Test, us: seq<Union>): (r: Results)
    requires IsPair(both)
    ensures |r| == |us| && forall i | 0 <= i < |r| :: r[i] == PairValue(refID, both, us[i])
  {
    seq(|us|, i requires 0 <= i < |us| => PairValue(refID, both, us[i]))
  }

  function LiftUnion(refID: string, t: Test, u: Test, w: Union): Union
  {
    Union(w.labels, Lift(refID, t, w.a), Lift(refID, u, w.b))
  }

  function LiftUnions(refID: string, t: Test, u: Test, us: seq<Union>): (r: seq<Union>)
    ensures |r| == |us| && forall i | 0 <= i < |r| :: r[i] == LiftUnion(refID, t, u, us[i])
  {
    seq(|us|, i requires 0 <= i < |us| => LiftUnion(refID, t, u, us[i]))
  }

  lemma JoinValue(lib: Library, refID: string, join: string, t: Test, u: Test, both: Test, w: Union)
    requires Joins(join, t, u, both) && !w.a.NoData? && !w.b.NoData?
    ensures BinaryValue(lib, refID, join, LiftUnion(refID, t, u, w)) == Ok(PairValue(refID, both, w))
  {
    hide PairVerdict;
    hide NullableOp;
    hide LiftFloat;
    match (w.a, w.b) {
      case (Series(_, _, ps), Series(_, _, qs)) => JoinSeries(lib, join, t, u, both, ps, qs);
      case (Series(_, _, ps), Number(_, _, y)) => JoinNumber(lib, join, t, u, both, ps, y, true);
      case (Series(_, _, ps), Scalar(_, y)) => JoinNumber(lib, join, t, u, both, ps, y, true);
      case (Number(_, _, x), Series(_, _, ps)) => JoinNumber(lib, join, t, u, both, ps, x, false);
      case (Scalar(_, x), Series(_, _, ps)) => JoinNumber(lib, join, t, u, both, ps, x, false);
      case (Scalar(_, x), Scalar(_, y)) => JoinFloats(lib, join, t, u, both, x, y);
      case (Scalar(_, x), Number(_, _, y)) => JoinFloats(lib, join, t, u, both, x, y);
      case (Number(_, _, x), Scalar(_, y)) => JoinFloats(lib, join, t, u, both, x, y);
      case (Number(_, _, x), Number(_, _, y)) => JoinFloats(lib, join, t, u, both, x, y);
      case (_, _) =>
    }
  }

  // -------------------------------------------------------------------- pairs

  lemma LiftKeeps(refID: string, t: Test, v: Value)
    ensures Lift(refID, t, v).GetLabels() == v.GetLabels() && Lift(refID, t, v).NoData? == v.NoData?
  {
    hide LiftPoints;
  }

  /** Lifting both sides of a join lifts the pairs of the join: who meets depends on labels alone. */
  lemma {:induction false} LiftedRow(refID: string, t: Test, u: Test, a: Value, bs: Results)
    ensures UnionsWith(Lift(refID, t, a), LiftAll(refID, u, bs)) == LiftUnions(refID, t, u, UnionsWith(a, bs))
  {
    if bs != [] {
      hide JoinLabels;
      hide Lift;
      var last := |bs| - 1;
      assert LiftAll(refID, u, bs)[..last] == LiftAll(refID, u, bs[..last]);
      LiftedRow(refID, t, u, a, bs[..last]);
      LiftKeeps(refID, t, a);
      LiftKeeps(refID, u, bs[last]);
    }
  }

  lemma {:induction false} LiftedJoin(refID: string, t: Test, u: Test, xs: Results, bs: Results)
    ensures UnionsOf(LiftAll(refID, t, xs), LiftAll(refID, u, bs)) == LiftUnions(refID, t, u, UnionsOf(xs, bs))
  {
    if xs != [] {
      var last := |xs| - 1;
      LiftedJoin(refID, t, u, xs[..last], bs);
      LiftedRow(refID, t, u, xs[last], bs);
      LiftedMore(refID, t, u, xs, bs);
      UnionsMore(xs, bs);
      hide *;
      LiftUnionsConcat(refID, t, u, UnionsOf(xs[..last], bs), UnionsWith(xs[last], bs));
    }
  }

  lemma UnionsMore(xs: Results, bs: Results)
    requires xs != []
    ensures UnionsOf(xs, bs) == UnionsOf(xs[..|xs| - 1], bs) + UnionsWith(xs[|xs| - 1], bs)
  {
    hide UnionsWith;
  }

  lemma LiftedMore(refID: string, t: Test, u: Test, xs: Results, bs: Results)
    requires xs != []
    ensures
      var last := |xs| - 1;
      UnionsOf(LiftAll(refID, t, xs), LiftAll(refID, u, bs)) ==
        UnionsOf(LiftAll(refID, t, xs[..last]), LiftAll(refID, u, bs)) + UnionsWith(Lift(refID, t, xs[last]), LiftAll(refID, u, bs))
  {
    hide UnionsWith;
    hide UnionsOf;
    hide Lift;
    UnionsMore(LiftAll(refID, t, xs), LiftAll(refID, u, bs));
    assert LiftAll(refID, t, xs)[..|xs| - 1] == LiftAll(refID, t, xs[..|xs| - 1]);
  }

  lemma LiftUnionsConcat(refID: string, t: Test, u: Test, a: seq<Union>, b: seq<Union>)
    ensures LiftUnions(refID, t, u, a + b) == LiftUnions(refID, t, u, a) + LiftUnions(refID, t, u, b)
  {
    hide LiftUnion;
  }

  lemma LiftedUnions(refID: string, t: Test, u: Test, vs: Results)
    requires HasData(vs)
    ensures Unions(LiftAll(refID, t, vs), LiftAll(refID, u, vs)) == LiftUnions(refID, t, u, Unions(vs, vs))
  {
    hide UnionsOf;
    hide Lift;
    LiftedJoin(refID, t, u, vs, vs);
    if vs != [] {
      LiftKeeps(refID, t, vs[0]);
      LiftKeeps(refID, u, vs[0]);
    }
  }

  predicate Meets(a: Value, b: Value)
  {
    JoinLabels(a.GetLabels(), b.GetLabels()).Some?
  }

  /** No value's labels combine with another value's: each value meets only itself in a self-join. */
  ghost predicate Incomparable(vs: Results)
  {
    forall i, j | 0 <= i < |vs| && 0 <= j < |vs| && i != j :: !Meets(vs[i], vs[j])
  }

  lemma MeetsItself(v: Value)
    ensures Meets(v, v) && JoinLabels(v.GetLabels(), v.GetLabels()) == Some(v.GetLabels())
  {
  }

  /** The pairs a range threshold judges are exactly the pairs of values that meet. */
  lemma UnionsAreMeetings(vs: Results, w: Union)
    requires HasData(vs)
    ensures w in Unions(vs, vs) <==> IsMeeting(vs, vs, w)
  {
    hide UnionsOf;
    JoinIsMeetings(vs, vs, w);
    if vs != [] {
      MeetsItself(vs[0]);
      var own := Union(vs[0].GetLabels(), vs[0], vs[0]);
      assert Pairs(vs[0], vs[0], own);
      JoinIsMeetings(vs, vs, own);
    }
  }

  lemma PairsHaveData(vs: Results)
    requires HasData(vs)
    ensures forall i | 0 <= i < |Unions(vs, vs)| :: !Unions(vs, vs)[i].a.NoData? && !Unions(vs, vs)[i].b.NoData?
  {
    hide Unions;
    var us := Unions(vs, vs);
    forall i | 0 <= i < |us| ensures !us[i].a.NoData? && !us[i].b.NoData? {
      UnionsAreMeetings(vs, us[i]);
    }
  }

  /** `$A > lo && $A < hi`, `$A < lo || $A > hi`: one joint verdict per pair of values that meet. */
  lemma WalkRange(lib: Library, refID: string, vars: Vars, name: string, op1: string, x: Bound, join: string,
                  op2: string, y: Bound, both: Test)
    requires op1 in {">", "<"} && op2 in {">", "<"} && HasData(Lookup(vars, name))
    requires Joins(join, Comparing(op1, x.Value()), Comparing(op2, y.Value()), both)
    ensures
      var vs := Lookup(vars, name);
      Walk(lib, refID, vars, BinaryNode(join, ConditionNode(name, op1, x), ConditionNode(name, op2, y))) ==
        Ok(PairValues(refID, both, Unions(vs, vs)))
  {
    hide ConditionNode;
    hide Unions;
    hide BinaryValue;
    hide PairValue;
    var vs := Lookup(vars, name);
    var t, u := Comparing(op1, x.Value()), Comparing(op2, y.Value());
    WalkCondition(lib, refID, vars, name, op1, x);
    WalkCondition(lib, refID, vars, name, op2, y);
    LiftedUnions(refID, t, u, vs);
    PairsHaveData(vs);
    var us := Unions(vs, vs);
    forall i | 0 <= i < |us|
      ensures BinaryValue(lib, refID, join, LiftUnions(refID, t, u, us)[i]) == Ok(PairValues(refID, both, us)[i])
    {
      JoinValue(lib, refID, join, t, u, both, us[i]);
    }
    BinaryAllMaps(lib, refID, join, LiftUnions(refID, t, u, us), PairValues(refID, both, us));
  }

  // ------------------------------------------------------- incomparable labels

  /** Each value beside itself. */
  function Diagonal(vs: Results): (us: seq<Union>)
    ensures |us| == |vs| && forall i | 0 <= i < |us| :: us[i] == Union(vs[i].GetLabels(), vs[i], vs[i])
  {
    seq(|vs|, i requires 0 <= i < |vs| => Union(vs[i].GetLabels(), vs[i], vs[i]))
  }

  lemma {:induction false} DiagonalRow(vs: Results, i: nat, n: nat)
    requires Incomparable(vs) && i < |vs| && n <= |vs|
    ensures UnionsWith(vs[i], vs[..n]) == if i < n then [Union(vs[i].GetLabels(), vs[i], vs[i])] else []
  {
    if n > 0 {
      hide JoinLabels;
      DiagonalRow(vs, i, n - 1);
      assert vs[..n][..n - 1] == vs[..n - 1];
      assert i != n - 1 ==> !Meets(vs[i], vs[n - 1]);
      MeetsItself(vs[i]);
    }
  }

  lemma {:induction false} DiagonalJoin(vs: Results, n: nat)
    requires Incomparable(vs) && n <= |vs|
    ensures UnionsOf(vs[..n], vs) == Diagonal(vs)[..n]
  {
    if n > 0 {
      hide Incomparable;
      hide UnionsWith;
      DiagonalJoin(vs, n - 1);
      assert vs[..n][..n - 1] == vs[..n - 1] && vs[..|vs|] == vs;
      DiagonalRow(vs, n - 1, |vs|);
    }
  }

  lemma DiagonalUnions(vs: Results)
    requires Incomparable(vs) && HasData(vs)
    ensures Unions(vs, vs) == Diagonal(vs)
  {
    DiagonalJoin(vs, |vs|);
    assert vs[..|vs|] == vs && Diagonal(vs)[..|vs|] == Diagonal(vs);
  }

  ghost predicate NoRepeatedTimes(vs: Results)
  {
    forall i | 0 <= i < |vs| && vs[i].Series? :: DistinctTimes(vs[i].points)
  }

  /** With pairwise incomparable labels and no repeated times, every value gets the verdict of the range. */
  lemma RangeIsVerdict(refID: string, both: Test, vs: Results)
    requires IsPair(both) && HasData(vs) && Incomparable(vs) && NoRepeatedTimes(vs)
    ensures PairValues(refID, both, Unions(vs, vs)) == LiftAll(refID, both, vs)
  {
    hide PairVerdict;
    hide LiftFloat;
    hide Unions;
    DiagonalUnions(vs);
    forall i | 0 <= i < |vs| ensures PairValue(refID, both, Diagonal(vs)[i]) == Lift(refID, both, vs[i]) {
      match vs[i] {
        case Series(_, _, points) =>
          SharedWithItself(both, points, |points|);
          assert points[..|points|] == points && LiftPoints(both, points)[..|points|] == LiftPoints(both, points);
        case Scalar(_, x) => PairIsVerdict(both, x);
        case Number(_, _, x) => PairIsVerdict(both, x);
        case NoData =>
      }
    }
  }

  // ---------------------------------------------------------------- the command

  predicate IsRange(f: ThresholdFunc)
  {
    f.IsWithinRange? || f.IsOutsideRange?
  }

  /** The name can be lexed and there are enough bounds; nothing is asked of the number reader. */
  ghost predicate Runs(env: Env, name: string, f: ThresholdFunc, args: seq<real>)
  {
    Unicode(env.classes) && ValidName(env.classes, name) && EnoughArgs(f, args)
  }

  function FirstOp(f: ThresholdFunc): string { if f.IsAbove? || f.IsWithinRange? then ">" else "<" }

  function SecondOp(f: ThresholdFunc): string { if f.IsWithinRange? then "<" else ">" }

  function JoinOp(f: ThresholdFunc): string { if f.IsWithinRange? then "&&" else "||" }

  /** Executing the command is walking one comparison, or two that are joined. */
  lemma ExecuteIsWalk(env: Env, name: string, f: ThresholdFunc, args: seq<real>, vars: Vars)
    requires Runs(env, name, f, args) && ReadsAll(env.grammar, f, args)
    ensures
      var first := ConditionNode(name, FirstOp(f), BoundOf(env.grammar, args[0]));
      ThresholdExecute(env, name, f, args, vars) == Walk(env.lib, name, vars,
        if IsRange(f) then BinaryNode(JoinOp(f), first, ConditionNode(name, SecondOp(f), BoundOf(env.grammar, args[1])))
        else first)
  {
    hide Parse;
    hide Walk;
    hide ConditionNode;
    hide Reads;
    hide BoundOf;
    ThresholdCompiles(env, name, f, args);
  }

  /**
    Executing a threshold, text and all, with any number reader. A bound that the reader refuses is
    an error. Otherwise a result that is empty or starts with NoData gives an empty result, and
    NoData further on an error; and on data, one bound gives for every value the value of the same
    kind and labels whose floats are the verdicts of the bound as read, and a range gives one joint
    verdict for every pair of values that meet.
  */
  lemma ThresholdComputesVerdicts(env: Env, name: string, f: ThresholdFunc, args: seq<real>, vars: Vars)
    requires Runs(env, name, f, args)
    ensures !ReadsAll(env.grammar, f, args) ==> ThresholdExecute(env, name, f, args, vars).Err?
    ensures ReadsAll(env.grammar, f, args) ==>
      var vs, r := Lookup(vars, name), ThresholdExecute(env, name, f, args, vars);
      var test := TestRead(env.grammar, f, args);
      && (vs == [] || vs[0].NoData? ==> r == Ok([]))
      && (vs != [] && !vs[0].NoData? && !HasData(vs) ==> r.Err?)
      && (HasData(vs) && !IsRange(f) ==> r == Ok(LiftAll(name, test, vs)))
      && (HasData(vs) && IsRange(f) ==> r == Ok(PairValues(name, test, Unions(vs, vs))))
  {
    if ReadsAll(env.grammar, f, args) {
      ReadThresholdComputes(env, name, f, args, vars);
    } else {
      hide Parse;
      hide Walk;
      ThresholdCompiles(env, name, f, args);
    }
  }

  lemma ReadThresholdComputes(env: Env, name: string, f: ThresholdFunc, args: seq<real>, vars: Vars)
    requires Runs(env, name, f, args) && ReadsAll(env.grammar, f, args)
    ensures
      var vs, r := Lookup(vars, name), ThresholdExecute(env, name, f, args, vars);
      var test := TestRead(env.grammar, f, args);
      && (vs == [] || vs[0].NoData? ==> r == Ok([]))
      && (vs != [] && !vs[0].NoData? && !HasData(vs) ==> r.Err?)
      && (HasData(vs) && !IsRange(f) ==> r == Ok(LiftAll(name, test, vs)))
      && (HasData(vs) && IsRange(f) ==> r == Ok(PairValues(name, test, Unions(vs, vs))))
  {
    hide ConditionNode;
    hide ThresholdExecute;
    hide Verdict;
    hide Reads;
    hide BoundOf;
    var vs, lib := Lookup(vars, name), env.lib;
    var first := BoundOf(env.grammar, args[0]);
    ExecuteIsWalk(env, name, f, args, vars);
    if vs == [] || vs[0].NoData? {
      WalkNoData(lib, name, vars, name, FirstOp(f), first);
      if IsRange(f) {
        WalkNoData(lib, name, vars, name, SecondOp(f), BoundOf(env.grammar, args[1]));
      }
    } else if !HasData(vs) {
      WalkLateNoData(lib, name, vars, name, FirstOp(f), first);
    } else {
      hide Walk;
      if IsRange(f) {
        WalkRange(lib, name, vars, name, FirstOp(f), first, JoinOp(f), SecondOp(f), BoundOf(env.grammar, args[1]),
                  TestRead(env.grammar, f, args));
      } else {
        WalkCondition(lib, name, vars, name, FirstOp(f), first);
      }
    }
  }

  // ------------------------------------------------------- the join's condition

  /** How many columns a row of the join meets. */
  function HitCount(v: Value, ys: Results): nat
  {
    if ys == [] then 0
    else HitCount(v, ys[..|ys| - 1]) + if Meets(v, ys[|ys| - 1]) then 1 else 0
  }

  lemma {:induction false} RowSize(v: Value, ys: Results)
    ensures |UnionsWith(v, ys)| == HitCount(v, ys)
  {
    hide JoinLabels;
    if ys != [] {
      RowSize(v, ys[..|ys| - 1]);
    }
  }

  lemma {:induction false} NoHits(v: Value, ys: Results)
    ensures HitCount(v, ys) == 0 <==> forall j | 0 <= j < |ys| :: !Meets(v, ys[j])
  {
    hide Meets;
    if ys != [] {
      NoHits(v, ys[..|ys| - 1]);
      assert forall j | 0 <= j < |ys| - 1 :: ys[..|ys| - 1][j] == ys[j];
    }
  }

  lemma {:induction false} SingleHit(v: Value, ys: Results, i: nat)
    requires i < |ys| && Meets(v, ys[i])
    ensures HitCount(v, ys) >= 1
    ensures HitCount(v, ys) == 1 <==> forall j: nat | j < |ys| && j != i :: !Meets(v, ys[j])
  {
    hide Meets;
    var last := |ys| - 1;
    var init := ys[..last];
    assert forall j | 0 <= j < last :: init[j] == ys[j];
    if i == last {
      NoHits(v, init);
    } else {
      SingleHit(v, init, i);
    }
  }

  lemma RowIsSingle(xs: Results, i: nat)
    requires i < |xs|
    ensures |UnionsWith(xs[i], xs)| >= 1
    ensures |UnionsWith(xs[i], xs)| == 1 <==> forall j: nat | j < |xs| && j != i :: !Meets(xs[i], xs[j])
  {
    hide JoinLabels;
    RowSize(xs[i], xs);
    MeetsItself(xs[i]);
    SingleHit(xs[i], xs, i);
  }

  /** Each of the first `n` values meets one value. */
  ghost predicate AllSingle(xs: Results, n: nat)
    requires n <= |xs|
  {
    forall i: nat | i < n :: |UnionsWith(xs[i], xs)| == 1
  }

  lemma AllSingleGrows(xs: Results, n: nat)
    requires 0 < n <= |xs|
    ensures AllSingle(xs, n) <==> AllSingle(xs, n - 1) && |UnionsWith(xs[n - 1], xs)| == 1
  {
    hide UnionsWith;
  }

  lemma NoJoin(xs: Results)
    ensures UnionsOf(xs[..0], xs) == [] && AllSingle(xs, 0)
  {
  }

  lemma {:induction false} JoinSize(xs: Results, n: nat)
    requires n <= |xs|
    ensures |UnionsOf(xs[..n], xs)| >= n
    ensures |UnionsOf(xs[..n], xs)| == n <==> AllSingle(xs, n)
  {
    hide *;
    if n == 0 {
      NoJoin(xs);
    } else {
      JoinSize(xs, n - 1);
      JoinGrows(xs, n);
      RowIsSingle(xs, n - 1);
      AllSingleGrows(xs, n);
    }
  }

  lemma JoinGrows(xs: Results, n: nat)
    requires 0 < n <= |xs|
    ensures UnionsOf(xs[..n], xs) == UnionsOf(xs[..n - 1], xs) + UnionsWith(xs[n - 1], xs)
  {
    hide UnionsWith;
    assert xs[..n][..n - 1] == xs[..n - 1];
  }

  /**
    Joining a result with itself, as a range threshold does, yields one value per input value if
    and only if no two input values have comparable labels; otherwise it yields more.
  */
  lemma OneVerdictPerValueIff(xs: Results)
    requires HasData(xs) && xs != []
    ensures |Unions(xs, xs)| == |xs| <==> Incomparable(xs)
    ensures |Unions(xs, xs)| >= |xs|
  {
    JoinSize(xs, |xs|);
    assert xs[..|xs|] == xs;
    forall i: nat | i < |xs|
      ensures |UnionsWith(xs[i], xs)| == 1 <==>
        forall j: nat | j < |xs| && j != i :: !Meets(xs[i], xs[j])
    {
      RowIsSingle(xs, i);
    }
  }

  /**
    A range threshold over data fails only if a bound cannot be read. Otherwise it gives at least
    one verdict per value, and exactly one if and only if no two values have comparable labels.
  */
  lemma RangeVerdictsIff(env: Env, name: string, f: ThresholdFunc, args: seq<real>, vars: Vars)
    requires Runs(env, name, f, args) && IsRange(f)
    requires HasData(Lookup(vars, name)) && Lookup(vars, name) != []
    ensures
      var vs, r := Lookup(vars, name), ThresholdExecute(env, name, f, args, vars);
      && (r.Ok? <==> ReadsAll(env.grammar, f, args))
      && (r.Ok? ==> |r.value| >= |vs| && (|r.value| == |vs| <==> Incomparable(vs)))
  {
    hide ThresholdExecute;
    hide Incomparable;
    hide Unions;
    ThresholdComputesVerdicts(env, name, f, args, vars);
    OneVerdictPerValueIff(Lookup(vars, name));
  }

  /** An unlabelled number beside a labelled one: two values, and more than two verdicts. */
  lemma ComparableLabelsMultiply(env: Env, name: string, f: ThresholdFunc, args: seq<real>, vars: Vars,
                                 x: Float, y: Float, labels: Labels)
    requires Runs(env, name, f, args) && IsRange(f)
    requires Lookup(vars, name) == [Number("A", map[], Some(x)), Number("B", labels, Some(y))]
    ensures ReadsAll(env.grammar, f, args) ==>
      var r := ThresholdExecute(env, name, f, args, vars); r.Ok? && |r.value| > 2
  {
    hide ThresholdExecute;
    RangeVerdictsIff(env, name, f, args, vars);
    assert Meets(Lookup(vars, name)[0], Lookup(vars, name)[1]);
  }

  /** A number that is NaN fires every outside range and leaves every within range undecided. */
  lemma NanIsOutsideEveryRange(env: Env, name: string, lo: real, hi: real, vars: Vars, id: string, labels: Labels)
    requires Runs(env, name, IsOutsideRange, [lo, hi]) && Reads(env.grammar, lo) && Reads(env.grammar, hi)
    requires Lookup(vars, name) == [Number(id, labels, Some(NaN))]
    ensures ThresholdExecute(env, name, IsOutsideRange, [lo, hi], vars) == Ok([Number(name, labels, Some(ONE))])
    ensures ThresholdExecute(env, name, IsWithinRange, [lo, hi], vars) == Ok([Number(name, labels, Some(NaN))])
  {
    hide ThresholdExecute;
    hide Reads;
    hide BoundOf;
    ThresholdComputesVerdicts(env, name, IsOutsideRange, [lo, hi], vars);
    ThresholdComputesVerdicts(env, name, IsWithinRange, [lo, hi], vars);
    OneNan(name, TestRead(env.grammar, IsOutsideRange, [lo, hi]), id, labels);
    OneNan(name, TestRead(env.grammar, IsWithinRange, [lo, hi]), id, labels);
  }

  lemma OneNan(refID: string, both: Test, id: string, labels: Labels)
    requires IsPair(both)
    ensures
      var vs := [Number(id, labels, Some(NaN))];
      PairValues(refID, both, Unions(vs, vs)) == [Number(refID, labels, Some(if both.Either? then ONE else NaN))]
  {
    hide Unions;
    RangeIsVerdict(refID, both, [Number(id, labels, Some(NaN))]);
  }
}
