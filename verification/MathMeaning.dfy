/**
  What the operators of an expression compute, stated from the outside: on numbers by the
  mathematical relation, on labelled values by which of them meet, under which labels, and what
  comes of each meeting.
*/
module MathMeaning {
  import opened Wrappers
  import opened MathValues
  import opened MathParser
  import opened MathEval

  // --------------------------------------------------------------- on one number

  function Bit(b: bool): Result<Float>
  {
    Ok(Fin(if b then 1.0 else 0.0))
  }

  predicate Arithmetic(op: string)
  {
    op == "+" || op == "-" || op == "*" || op == "/" || op == "**" || op == "%"
  }

  predicate Known(op: string)
  {
    || Arithmetic(op)
    || op == "==" || op == "!=" || op == ">" || op == "<" || op == ">=" || op == "<=" || op == "||" || op == "&&"
  }

  lemma OperatorsOnNumbers(lib: Library, x: real, y: real)
    ensures BinaryOp(lib, "==", Fin(x), Fin(y)) == Bit(x == y)
    ensures BinaryOp(lib, "!=", Fin(x), Fin(y)) == Bit(x != y)
    ensures BinaryOp(lib, ">", Fin(x), Fin(y)) == Bit(x > y)
    ensures BinaryOp(lib, "<", Fin(x), Fin(y)) == Bit(x < y)
    ensures BinaryOp(lib, ">=", Fin(x), Fin(y)) == Bit(x >= y)
    ensures BinaryOp(lib, "<=", Fin(x), Fin(y)) == Bit(x <= y)
    ensures BinaryOp(lib, "||", Fin(x), Fin(y)) == Bit(x != 0.0 || y != 0.0)
    ensures BinaryOp(lib, "&&", Fin(x), Fin(y)) == Bit(x != 0.0 && y != 0.0)
    ensures UnaryOp("!", Fin(x)) == Bit(x == 0.0)
    ensures UnaryOp("-", Fin(x)) == Ok(Fin(-x))
  {
  }

  /** Arithmetic is the library's, left operand first. */
  lemma ArithmeticOnNumbers(lib: Library, op: string, a: Float, b: Float)
    requires Arithmetic(op) && a != NaN && b != NaN
    ensures BinaryOp(lib, op, a, b) == Ok(lib.arith(op, a, b))
  {
  }

  /** A NaN spreads, unless the left operand alone decides; being no zero, it decides `||` itself. */
  lemma OperatorsOnNaN(lib: Library, op: string, a: Float, b: Float)
    requires a == NaN || b == NaN
    ensures
      BinaryOp(lib, op, a, b) ==
        if op == "||" && a != Fin(0.0) then Bit(true) else if op == "&&" && a == Fin(0.0) then Bit(false) else Ok(NaN)
    ensures UnaryOp(op, NaN) == Ok(NaN)
  {
  }

  lemma OperatorFailsIff(lib: Library, op: string, a: Float, b: Float)
    ensures BinaryOp(lib, op, a, b).Err? <==> !Known(op) && a != NaN && b != NaN
  {
  }

  // ---------------------------------------------------------------- on one label

  predicate Within(small: Labels, big: Labels)
  {
    forall k | k in small :: k in big && big[k] == small[k]
  }

  /** Labels join exactly when one side's are among the other's, and the larger side's are kept. */
  lemma JoinLabelsIff(a: Labels, b: Labels, l: Labels)
    ensures JoinLabels(a, b) == Some(l) <==> (Within(a, b) && l == b) || (Within(b, a) && l == a)
  {
    SameSize(a, b);
    SameSize(b, a);
    if |a| == 0 {
      assert a == map[];
    }
    if |b| == 0 {
      assert b == map[];
    }
  }

  lemma SameSize(a: Labels, b: Labels)
    ensures Within(a, b) && |a| == |b| ==> a == b
    ensures Within(a, b) ==> |a| <= |b|
  {
    if Within(a, b) {
      assert a.Keys <= b.Keys;
      KeysGrow(a.Keys, b.Keys);
      assert |a.Keys| == |a| && |b.Keys| == |b|;
    }
  }

  lemma KeysGrow(a: set<string>, b: set<string>)
    requires a <= b
    ensures |a| <= |b| && (|a| == |b| ==> a == b)
  {
    assert b == a + (b - a);
    if |b - a| == 0 {
      assert b - a == {};
    }
  }

  // ---------------------------------------------------------------- on one value

  /** `z` is the operator on two cells, where a null makes null. */
  predicate IsCell(lib: Library, op: string, x: Option<Float>, y: Option<Float>, z: Option<Float>)
  {
    if x.None? || y.None? then z.None? else z.Some? && BinaryOp(lib, op, x.value, y.value) == Ok(z.value)
  }

  /** The series keeps its times; the number stands on the side the text put it. */
  ghost predicate IsPointwise(lib: Library, op: string, ps: seq<Point>, v: Option<Float>, seriesFirst: bool, rs: seq<Point>)
  {
    && |rs| == |ps|
    && forall i | 0 <= i < |ps| ::
         && rs[i].time == ps[i].time
         && if seriesFirst then IsCell(lib, op, ps[i].value, v, rs[i].value) else IsCell(lib, op, v, ps[i].value, rs[i].value)
  }

  /** `q` is what the series holds at the time: its last point there. */
  ghost predicate IsLastAt(qs: seq<Point>, time: int, q: Option<Float>)
  {
    exists j ::
      && 0 <= j < |qs| && qs[j] == Point(time, q)
      && forall k | j < k < |qs| :: qs[k].time != time
  }

  ghost predicate HasTime(qs: seq<Point>, time: int)
  {
    exists j :: 0 <= j < |qs| && qs[j].time == time
  }

  ghost predicate IsJoinedPoint(lib: Library, op: string, p: Point, qs: seq<Point>, r: Point)
  {
    r.time == p.time && exists q :: IsLastAt(qs, p.time, q) && IsCell(lib, op, p.value, q, r.value)
  }

  /** The positions kept, in order: those whose time the other series has. */
  ghost predicate AreKept(ps: seq<Point>, qs: seq<Point>, kept: seq<nat>)
  {
    && (forall i, j | 0 <= i < j < |kept| :: kept[i] < kept[j])
    && (forall i: nat :: i in kept <==> i < |ps| && HasTime(qs, ps[i].time))
  }

  ghost predicate AreJoined(lib: Library, op: string, ps: seq<Point>, qs: seq<Point>, kept: seq<nat>, rs: seq<Point>)
  {
    && AreKept(ps, qs, kept)
    && |rs| == |kept|
    && forall k | 0 <= k < |kept| :: kept[k] < |ps| && IsJoinedPoint(lib, op, ps[kept[k]], qs, rs[k])
  }

  ghost predicate IsTimeJoin(lib: Library, op: string, ps: seq<Point>, qs: seq<Point>, rs: seq<Point>)
  {
    exists kept :: AreJoined(lib, op, ps, qs, kept, rs)
  }

  /** What two values that meet come to. */
  ghost predicate Combines(lib: Library, refID: string, op: string, labels: Labels, a: Value, b: Value, r: Value)
  {
    if a.NoData? || b.NoData? then false
    else if a.Scalar? && b.Scalar? then r.Scalar? && r.name == refID && IsCell(lib, op, a.value, b.value, r.value)
    else if a.Series? || b.Series? then
      && r.Series? && r.name == refID && r.labels == labels
      && if a.Series? && b.Series? then IsTimeJoin(lib, op, a.points, b.points, r.points)
         else if a.Series? then IsPointwise(lib, op, a.points, b.value, true, r.points)
         else IsPointwise(lib, op, b.points, a.value, false, r.points)
    else r.Number? && r.name == refID && r.labels == labels && IsCell(lib, op, a.value, b.value, r.value)
  }

  lemma CellIs(lib: Library, op: string, x: Option<Float>, y: Option<Float>)
    requires Known(op)
    ensures NullableOp(lib, op, x, y).Ok? && IsCell(lib, op, x, y, NullableOp(lib, op, x, y).value)
  {
    hide BinaryOp;
    if x.Some? && y.Some? {
      OperatorFailsIff(lib, op, x.value, y.value);
    }
  }

  lemma {:induction false} PointwiseIs(lib: Library, op: string, ps: seq<Point>, v: Option<Float>, seriesFirst: bool)
    requires Known(op)
    ensures
      var rs := PointsWithNumber(lib, op, ps, v, seriesFirst);
      rs.Ok? && IsPointwise(lib, op, ps, v, seriesFirst, rs.value)
  {
    if ps != [] {
      hide NullableOp;
      hide IsCell;
      hide Known;
      var last := |ps| - 1;
      PointwiseIs(lib, op, ps[..last], v, seriesFirst);
      CellIs(lib, op, ps[last].value, v);
      CellIs(lib, op, v, ps[last].value);
    }
  }

  lemma {:induction false} ValueAtIs(qs: seq<Point>, time: int)
    ensures ValueAt(qs, time).Some? <==> HasTime(qs, time)
    ensures ValueAt(qs, time).Some? ==> IsLastAt(qs, time, ValueAt(qs, time).value)
  {
    if qs != [] {
      var last := |qs| - 1;
      ValueAtIs(qs[..last], time);
      assert forall i | 0 <= i < last :: qs[..last][i] == qs[i];
      if qs[last].time == time {
        assert qs[last] == Point(time, qs[last].value);
      } else if HasTime(qs[..last], time) {
        var q := ValueAt(qs[..last], time).value;
        var j :| 0 <= j < last && qs[..last][j] == Point(time, q) && forall k | j < k < last :: qs[..last][k].time != time;
        assert qs[j] == Point(time, q);
      }
    }
  }

  lemma {:induction false} TimeJoinIs(lib: Library, op: string, ps: seq<Point>, qs: seq<Point>) returns (kept: seq<nat>)
    requires Known(op)
    ensures
      var rs := JoinPoints(lib, op, ps, qs);
      rs.Ok? && AreJoined(lib, op, ps, qs, kept, rs.value)
  {
    hide NullableOp;
    hide IsCell;
    hide Known;
    hide ValueAt;
    hide HasTime;
    hide IsLastAt;
    if ps == [] {
      kept := [];
    } else {
      var last := |ps| - 1;
      var before := TimeJoinIs(lib, op, ps[..last], qs);
      assert forall i | 0 <= i < last :: ps[..last][i] == ps[i];
      ValueAtIs(qs, ps[last].time);
      var other := ValueAt(qs, ps[last].time);
      if other.Some? {
        CellIs(lib, op, ps[last].value, other.value);
        kept := before + [last];
        KeptGrows(ps, qs, before);
      } else {
        kept := before;
        assert forall i: nat :: i in kept <==> i < |ps| && HasTime(qs, ps[i].time);
      }
    }
  }

  lemma KeptGrows(ps: seq<Point>, qs: seq<Point>, before: seq<nat>)
    requires ps != [] && AreKept(ps[..|ps| - 1], qs, before) && HasTime(qs, ps[|ps| - 1].time)
    ensures AreKept(ps, qs, before + [|ps| - 1])
  {
    hide HasTime;
    var last := |ps| - 1;
    assert forall i | 0 <= i < last :: ps[..last][i] == ps[i];
    var kept := before + [last];
    forall i | 0 <= i < |before| ensures before[i] < last {
      assert before[i] in before;
    }
    forall i: nat ensures i in kept <==> i < |ps| && HasTime(qs, ps[i].time) {
      assert i in kept <==> i in before || i == last;
    }
  }

  /** Two values with data always combine under a known operator; with no data they never do. */
  lemma BinaryValueIs(lib: Library, refID: string, op: string, u: Union)
    requires Known(op)
    ensures
      var r := BinaryValue(lib, refID, op, u);
      (r.Ok? <==> u.a != NoData && u.b != NoData) && (r.Ok? ==> Combines(lib, refID, op, u.labels, u.a, u.b, r.value))
  {
    hide Known;
    hide PointsWithNumber;
    hide JoinPoints;
    hide NullableOp;
    hide IsPointwise;
    hide AreJoined;
    hide IsCell;
    if u.a.Series? && u.b.Series? {
      var kept := TimeJoinIs(lib, op, u.a.points, u.b.points);
    } else if u.a.Series? && u.b != NoData {
      PointwiseIs(lib, op, u.a.points, u.b.value, true);
    } else if u.b.Series? && u.a != NoData {
      PointwiseIs(lib, op, u.b.points, u.a.value, false);
    } else if u.a != NoData && u.b != NoData {
      CellIs(lib, op, u.a.value, u.b.value);
    }
  }

  // ------------------------------------------------------------- on whole results

  function LabelsOf(v: Value): Labels
  {
    match v
    case Number(_, labels, _) => labels
    case Series(_, labels, _) => labels
    case _ => map[]
  }

  /** The two values meet: the labels of one are among the other's. */
  predicate Meet(a: Value, b: Value)
  {
    Within(LabelsOf(a), LabelsOf(b)) || Within(LabelsOf(b), LabelsOf(a))
  }

  function Larger(a: Labels, b: Labels): Labels
  {
    if Within(a, b) then b else a
  }

  predicate Lexicographic(p: (nat, nat), q: (nat, nat))
  {
    p.0 < q.0 || (p.0 == q.0 && p.1 < q.1)
  }

  ghost predicate IsPair(xs: Results, bs: Results, p: (nat, nat))
  {
    p.0 < |xs| && p.1 < |bs| && Meet(xs[p.0], bs[p.1])
  }

  /** All pairs that meet, once each, row by row. */
  ghost predicate AreMeetings(xs: Results, bs: Results, pairs: seq<(nat, nat)>)
  {
    && (forall i, j | 0 <= i < j < |pairs| :: Lexicographic(pairs[i], pairs[j]))
    && (forall p: (nat, nat) :: p in pairs <==> IsPair(xs, bs, p))
  }

  /** The unions are the pairs, each under the larger labels. */
  ghost predicate AreUnions(xs: Results, bs: Results, pairs: seq<(nat, nat)>, us: seq<Union>)
  {
    && |us| == |pairs|
    && forall k | 0 <= k < |pairs| :: IsUnion(xs, bs, pairs[k], us[k])
  }

  ghost predicate IsUnion(xs: Results, bs: Results, p: (nat, nat), u: Union)
  {
    p.0 < |xs| && p.1 < |bs| &&
    u == Union(Larger(LabelsOf(xs[p.0]), LabelsOf(bs[p.1])), xs[p.0], bs[p.1])
  }

  lemma MeetIs(a: Value, b: Value)
    ensures JoinLabels(a.GetLabels(), b.GetLabels()) ==
      if Meet(a, b) then Some(Larger(LabelsOf(a), LabelsOf(b))) else None
  {
    var x, y := LabelsOf(a), LabelsOf(b);
    JoinLabelsIff(x, y, Larger(x, y));
    var l := JoinLabels(x, y);
    if l.Some? {
      JoinLabelsIff(x, y, l.value);
    }
  }

  /** One more value on the right adds the pair at the end of the last row, if it meets. */
  lemma {:induction false} RowIs(xs: Results, bs: Results, i: nat, n: nat, pairs: seq<(nat, nat)>)
    returns (pairs': seq<(nat, nat)>)
    requires i < |xs| && n <= |bs| && AreMeetings(xs[..i], bs, pairs) && AreUnions(xs, bs, pairs, UnionsOf(xs[..i], bs))
    ensures forall k, m | 0 <= k < m < |pairs'| :: Lexicographic(pairs'[k], pairs'[m])
    ensures forall p: (nat, nat) :: p in pairs' <==> IsPair(xs, bs, p) && (p.0 < i || (p.0 == i && p.1 < n))
    ensures AreUnions(xs, bs, pairs', UnionsOf(xs[..i], bs) + UnionsWith(xs[i], bs[..n]))
  {
    hide UnionsOf;
    hide Meet;
    hide Larger;
    hide JoinLabels;
    if n == 0 {
      pairs' := pairs;
      assert UnionsOf(xs[..i], bs) + UnionsWith(xs[i], bs[..0]) == UnionsOf(xs[..i], bs);
      assert forall p: (nat, nat) :: IsPair(xs[..i], bs, p) <==> IsPair(xs, bs, p) && p.0 < i;
    } else {
      var before := RowIs(xs, bs, i, n - 1, pairs);
      assert bs[..n][..n - 1] == bs[..n - 1];
      MeetIs(xs[i], bs[n - 1]);
      var us := UnionsOf(xs[..i], bs) + UnionsWith(xs[i], bs[..n - 1]);
      if Meet(xs[i], bs[n - 1]) {
        pairs' := before + [(i, n - 1)];
        var u := Union(Larger(LabelsOf(xs[i]), LabelsOf(bs[n - 1])), xs[i], bs[n - 1]);
        assert UnionsOf(xs[..i], bs) + UnionsWith(xs[i], bs[..n]) == us + [u];
        PairsGrow(xs, bs, i, n, before);
        UnionsGrow(xs, bs, before, us, (i, n - 1), u);
      } else {
        pairs' := before;
        assert UnionsWith(xs[i], bs[..n]) == UnionsWith(xs[i], bs[..n - 1]);
      }
    }
  }

  lemma PairsGrow(xs: Results, bs: Results, i: nat, n: nat, before: seq<(nat, nat)>)
    requires i < |xs| && 0 < n <= |bs| && IsPair(xs, bs, (i, n - 1))
    requires forall k, m | 0 <= k < m < |before| :: Lexicographic(before[k], before[m])
    requires forall p: (nat, nat) :: p in before <==> IsPair(xs, bs, p) && (p.0 < i || (p.0 == i && p.1 < n - 1))
    ensures
      var pairs := before + [(i, n - 1)];
      && (forall k, m | 0 <= k < m < |pairs| :: Lexicographic(pairs[k], pairs[m]))
      && (forall p: (nat, nat) :: p in pairs <==> IsPair(xs, bs, p) && (p.0 < i || (p.0 == i && p.1 < n)))
  {
    hide IsPair;
    var pairs := before + [(i, n - 1)];
    forall k | 0 <= k < |before| ensures Lexicographic(before[k], (i, n - 1)) {
      assert before[k] in before;
    }
    forall p: (nat, nat) ensures p in pairs <==> IsPair(xs, bs, p) && (p.0 < i || (p.0 == i && p.1 < n)) {
      assert p in pairs <==> p in before || p == (i, n - 1);
    }
  }

  lemma UnionsGrow(xs: Results, bs: Results, pairs: seq<(nat, nat)>, us: seq<Union>, p: (nat, nat), u: Union)
    requires AreUnions(xs, bs, pairs, us) && IsUnion(xs, bs, p, u)
    ensures AreUnions(xs, bs, pairs + [p], us + [u])
  {
    hide IsUnion;
  }

  lemma {:induction false} MeetingsAre(xs: Results, bs: Results, n: nat) returns (pairs: seq<(nat, nat)>)
    requires n <= |xs|
    ensures AreMeetings(xs[..n], bs, pairs) && AreUnions(xs, bs, pairs, UnionsOf(xs[..n], bs))
  {
    hide Meet;
    hide UnionsWith;
    if n == 0 {
      pairs := [];
    } else {
      var before := MeetingsAre(xs, bs, n - 1);
      pairs := RowIs(xs, bs, n - 1, |bs|, before);
      assert xs[..n][..n - 1] == xs[..n - 1] && bs[..|bs|] == bs;
      forall p: (nat, nat) ensures p in pairs <==> IsPair(xs[..n], bs, p) {
      }
    }
  }

  lemma {:induction false} BinaryAllIs(lib: Library, refID: string, op: string, us: seq<Union>)
    requires Known(op)
    ensures
      var r := BinaryAll(lib, refID, op, us);
      && (r.Ok? <==> forall k | 0 <= k < |us| :: us[k].a != NoData && us[k].b != NoData)
      && (r.Ok? ==>
            && |r.value| == |us|
            && forall k | 0 <= k < |us| :: Combines(lib, refID, op, us[k].labels, us[k].a, us[k].b, r.value[k]))
  {
    if us != [] {
      hide BinaryValue;
      hide Combines;
      hide Known;
      var last := |us| - 1;
      BinaryAllIs(lib, refID, op, us[..last]);
      assert forall k | 0 <= k < last :: us[..last][k] == us[k];
      BinaryValueIs(lib, refID, op, us[last]);
    }
  }

  predicate NoneMissing(vs: Results)
  {
    forall i | 0 <= i < |vs| :: vs[i] != NoData
  }

  /** One side is empty, or a side has one value and a side begins without data. */
  predicate Vanishes(xs: Results, bs: Results)
  {
    xs == [] || bs == [] || ((|xs| == 1 || |bs| == 1) && (xs[0] == NoData || bs[0] == NoData))
  }

  ghost predicate SomeMeet(xs: Results, bs: Results)
  {
    exists p: (nat, nat) :: IsPair(xs, bs, p)
  }

  /** One value for each pair that meets, row by row, under the larger labels. */
  ghost predicate JoinsTo(lib: Library, refID: string, op: string, xs: Results, bs: Results, pairs: seq<(nat, nat)>, rs: Results)
  {
    && AreMeetings(xs, bs, pairs)
    && |rs| == |pairs|
    && forall k | 0 <= k < |pairs| ::
         && pairs[k].0 < |xs| && pairs[k].1 < |bs|
         && var a, b := xs[pairs[k].0], bs[pairs[k].1];
            Combines(lib, refID, op, Larger(LabelsOf(a), LabelsOf(b)), a, b, rs[k])
  }

  /**
    A binary operation on two results. It comes to nothing where one side is empty, or where a
    single value meets a side that begins without data; otherwise it fails exactly when a value
    without data is on either side. Else each pair that meets gives its value, in order; two
    single values that do not meet are combined all the same, and lose their labels.
  */
  lemma BinaryAnswers(lib: Library, refID: string, vars: Vars, op: string, a: Node, b: Node)
    requires Known(op) && Walk(lib, refID, vars, a).Ok? && Walk(lib, refID, vars, b).Ok?
    ensures
      var xs, bs, r := Walk(lib, refID, vars, a).value, Walk(lib, refID, vars, b).value, Walk(lib, refID, vars, BinaryNode(op, a, b));
      && (Vanishes(xs, bs) ==> r == Ok([]))
      && (!Vanishes(xs, bs) ==> (r.Ok? <==> NoneMissing(xs) && NoneMissing(bs)))
      && (!Vanishes(xs, bs) && r.Ok? && |xs| == |bs| == 1 && !Meet(xs[0], bs[0]) ==>
            |r.value| == 1 && Combines(lib, refID, op, map[], xs[0], bs[0], r.value[0]))
      && (!Vanishes(xs, bs) && r.Ok? && (|xs| != 1 || |bs| != 1 || Meet(xs[0], bs[0])) ==>
            exists pairs :: JoinsTo(lib, refID, op, xs, bs, pairs, r.value))
  {
    hide BinaryAll;
    hide Known;
    hide JoinsTo;
    hide Combines;
    hide Unions;
    var xs, bs := Walk(lib, refID, vars, a).value, Walk(lib, refID, vars, b).value;
    JoinIs(lib, refID, op, xs, bs);
    if Vanishes(xs, bs) {
      assert BinaryAll(lib, refID, op, []) == Ok([]) by {
        BinaryAllIs(lib, refID, op, []);
      }
    }
  }

  lemma JoinIs(lib: Library, refID: string, op: string, xs: Results, bs: Results)
    requires Known(op)
    ensures Vanishes(xs, bs) ==> Unions(xs, bs) == []
    ensures
      var r := BinaryAll(lib, refID, op, Unions(xs, bs));
      !Vanishes(xs, bs) ==>
        && (r.Ok? <==> NoneMissing(xs) && NoneMissing(bs))
        && (r.Ok? && |xs| == |bs| == 1 && !Meet(xs[0], bs[0]) ==>
              |r.value| == 1 && Combines(lib, refID, op, map[], xs[0], bs[0], r.value[0]))
        && (r.Ok? && (|xs| != 1 || |bs| != 1 || Meet(xs[0], bs[0])) ==>
              exists pairs :: JoinsTo(lib, refID, op, xs, bs, pairs, r.value))
  {
    hide Known;
    hide Combines;
    hide BinaryAll;
    hide UnionsOf;
    hide Meet;
    hide AreMeetings;
    hide AreUnions;
    if !Vanishes(xs, bs) {
      var pairs := MeetingsAre(xs, bs, |xs|);
      assert xs[..|xs|] == xs;
      var all, us := UnionsOf(xs, bs), Unions(xs, bs);
      BinaryAllIs(lib, refID, op, us);
      if |xs| == |bs| == 1 && !Meet(xs[0], bs[0]) {
        LonePair(xs, bs, pairs, all);
      } else {
        assert us == all by {
          if |xs| == |bs| == 1 {
            LonePair(xs, bs, pairs, all);
          }
        }
        MissingIsPaired(xs, bs, pairs, us);
        var r := BinaryAll(lib, refID, op, us);
        if r.Ok? {
          JoinedAre(lib, refID, op, xs, bs, pairs, us, r.value);
        }
      }
    }
  }

  lemma LonePair(xs: Results, bs: Results, pairs: seq<(nat, nat)>, us: seq<Union>)
    requires |xs| == |bs| == 1 && AreMeetings(xs, bs, pairs) && AreUnions(xs, bs, pairs, us)
    ensures us == [] <==> !Meet(xs[0], bs[0])
    ensures !Meet(xs[0], bs[0]) ==> xs[0] != NoData && bs[0] != NoData
  {
    hide Larger;
    if us != [] {
      assert pairs[0] in pairs;
    }
    if Meet(xs[0], bs[0]) {
      assert IsPair(xs, bs, (0, 0));
      assert (0, 0) in pairs;
    }
  }

  /** A value without data has no labels, so it meets everything. */
  lemma MissingIsPaired(xs: Results, bs: Results, pairs: seq<(nat, nat)>, us: seq<Union>)
    requires xs != [] && bs != [] && AreMeetings(xs, bs, pairs) && AreUnions(xs, bs, pairs, us)
    ensures (forall k | 0 <= k < |us| :: us[k].a != NoData && us[k].b != NoData) <==> NoneMissing(xs) && NoneMissing(bs)
  {
    hide Larger;
    if i: nat :| i < |xs| && xs[i] == NoData {
      assert IsPair(xs, bs, (i, 0));
      assert (i, 0) in pairs;
      var k :| 0 <= k < |pairs| && pairs[k] == (i, 0);
      assert IsUnion(xs, bs, pairs[k], us[k]);
    }
    if j: nat :| j < |bs| && bs[j] == NoData {
      assert IsPair(xs, bs, (0, j));
      assert (0, j) in pairs;
      var k :| 0 <= k < |pairs| && pairs[k] == (0, j);
      assert IsUnion(xs, bs, pairs[k], us[k]);
    }
    forall k | 0 <= k < |us| && NoneMissing(xs) && NoneMissing(bs) ensures us[k].a != NoData && us[k].b != NoData {
      assert IsUnion(xs, bs, pairs[k], us[k]);
    }
  }

  lemma JoinedAre(lib: Library, refID: string, op: string, xs: Results, bs: Results, pairs: seq<(nat, nat)>,
                  us: seq<Union>, rs: Results)
    requires AreMeetings(xs, bs, pairs) && AreUnions(xs, bs, pairs, us) && |rs| == |us|
    requires forall k | 0 <= k < |us| :: Combines(lib, refID, op, us[k].labels, us[k].a, us[k].b, rs[k])
    ensures JoinsTo(lib, refID, op, xs, bs, pairs, rs)
  {
    hide Combines;
    hide AreMeetings;
    hide Larger;
    forall k | 0 <= k < |pairs| ensures IsUnion(xs, bs, pairs[k], us[k]) {
    }
  }

  // ----------------------------------------------------------------------- unary

  predicate IsUnaryCell(op: string, x: Option<Float>, z: Option<Float>)
  {
    if x.None? then z.None? else z.Some? && UnaryOp(op, x.value) == Ok(z.value)
  }

  /** The value keeps its kind, labels and times, and takes the expression's name. */
  ghost predicate IsUnary(refID: string, op: string, v: Value, r: Value)
  {
    match v
    case NoData => r == NoData
    case Scalar(_, x) => r.Scalar? && r.name == refID && IsUnaryCell(op, x, r.value)
    case Number(_, labels, x) => r.Number? && r.name == refID && r.labels == labels && IsUnaryCell(op, x, r.value)
    case Series(_, labels, ps) =>
      && r.Series? && r.name == refID && r.labels == labels && |r.points| == |ps|
      && forall i | 0 <= i < |ps| :: r.points[i].time == ps[i].time && IsUnaryCell(op, ps[i].value, r.points[i].value)
  }

  lemma {:induction false} UnaryPointsIs(op: string, ps: seq<Point>)
    requires op == "!" || op == "-"
    ensures
      var rs := UnaryPoints(op, ps);
      && rs.Ok? && |rs.value| == |ps|
      && forall i | 0 <= i < |ps| :: rs.value[i].time == ps[i].time && IsUnaryCell(op, ps[i].value, rs.value[i].value)
  {
    if ps != [] {
      var last := |ps| - 1;
      UnaryPointsIs(op, ps[..last]);
      assert forall i | 0 <= i < last :: ps[..last][i] == ps[i];
    }
  }

  lemma {:induction false} UnaryAllIs(refID: string, op: string, vs: Results)
    requires op == "!" || op == "-"
    ensures
      var r := UnaryAll(refID, op, vs);
      r.Ok? && |r.value| == |vs| && forall i | 0 <= i < |vs| :: IsUnary(refID, op, vs[i], r.value[i])
  {
    if vs != [] {
      hide IsUnaryCell;
      var last := |vs| - 1;
      UnaryAllIs(refID, op, vs[..last]);
      assert forall i | 0 <= i < last :: vs[..last][i] == vs[i];
      UnaryValueIs(refID, op, vs[last]);
      hide UnaryValue;
      hide IsUnary;
    }
  }

  lemma UnaryValueIs(refID: string, op: string, v: Value)
    requires op == "!" || op == "-"
    ensures UnaryValue(refID, op, v).Ok? && IsUnary(refID, op, v, UnaryValue(refID, op, v).value)
  {
    if v.Series? {
      UnaryPointsIs(op, v.points);
    }
  }

  /** A unary operation answers whenever its operand does, value by value; no data stays no data. */
  lemma UnaryAnswers(lib: Library, refID: string, vars: Vars, op: string, a: Node)
    requires op == "!" || op == "-"
    ensures
      var x, r := Walk(lib, refID, vars, a), Walk(lib, refID, vars, UnaryNode(op, a));
      && (r.Ok? <==> x.Ok?)
      && (r.Ok? ==> |r.value| == |x.value| && forall i | 0 <= i < |x.value| :: IsUnary(refID, op, x.value[i], r.value[i]))
  {
    hide UnaryAll;
    var x := Walk(lib, refID, vars, a);
    if x.Ok? {
      UnaryAllIs(refID, op, x.value);
    }
  }
}
