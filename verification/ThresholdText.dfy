/**
  The text a threshold command compiles to, and what the lexer and parser make of it. The
  command goes through text: a variable in braces and numbers printed with six decimals.
*/
module ThresholdText {
  import opened Wrappers
  import opened MathValues
  import opened MathLexer
  import opened MathParser

  // ------------------------------------------------------------------- numbers

  function Digit(d: nat): char
    requires d < 10
  {
    ('0' as int + d) as char
  }

  function DigitValue(c: char): int
  {
    c as int - '0' as int
  }

  predicate AllDigits(s: string)
  {
    forall i | 0 <= i < |s| :: IsDecimal(s[i])
  }

  /** Decimal digits without leading zeros. */
  function Digits(n: nat): (s: string)
    ensures s != "" && AllDigits(s)
  {
    if n < 10 then [Digit(n)] else Digits(n / 10) + [Digit(n % 10)]
  }

  /** The last `k` decimal digits. */
  function Padded(n: nat, k: nat): (s: string)
    ensures |s| == k && AllDigits(s)
  {
    if k == 0 then "" else Padded(n / 10, k - 1) + [Digit(n % 10)]
  }

  function Reading(s: string): int
  {
    if s == "" then 0 else 10 * Reading(s[..|s| - 1]) + DigitValue(s[|s| - 1])
  }

  function Pow10(k: nat): (p: nat)
    ensures p > 0
  {
    if k == 0 then 1 else 10 * Pow10(k - 1)
  }

  lemma DigitRoundTrip(d: nat)
    requires d < 10
    ensures DigitValue(Digit(d)) == d
  {
  }

  lemma ReadingSnoc(s: string, c: char)
    ensures Reading(s + [c]) == 10 * Reading(s) + DigitValue(c)
  {
    assert (s + [c])[..|s|] == s;
  }

  lemma {:induction false} DigitsRoundTrip(n: nat)
    ensures Reading(Digits(n)) == n
  {
    DigitRoundTrip(n % 10);
    if n < 10 {
      ReadingSnoc("", Digit(n));
      assert "" + [Digit(n)] == [Digit(n)];
    } else {
      DigitsRoundTrip(n / 10);
      ReadingSnoc(Digits(n / 10), Digit(n % 10));
    }
  }

  lemma TenTimes(n: nat, p: nat)
    requires n < 10 * p
    ensures n / 10 < p && n == 10 * (n / 10) + n % 10
  {
  }

  lemma {:induction false} PaddedRoundTrip(n: nat, k: nat)
    requires n < Pow10(k)
    ensures Reading(Padded(n, k)) == n
  {
    if k > 0 {
      TenTimes(n, Pow10(k - 1));
      DigitRoundTrip(n % 10);
      PaddedRoundTrip(n / 10, k - 1);
      ReadingSnoc(Padded(n / 10, k - 1), Digit(n % 10));
    }
  }

  const MILLION: nat := 1000000

  function Abs(x: real): real
  {
    if x < 0.0 then -x else x
  }

  /** The magnitude in millionths, rounded to nearest, ties to even. */
  function Millionths(x: real): nat
  {
    var y := Abs(x) * 1000000.0;
    var whole := y.Floor;
    var rest := y - whole as real;
    if rest < 0.5 || (rest == 0.5 && whole % 2 == 0) then whole else whole + 1
  }

  function Magnitude(x: real): real
  {
    Millionths(x) as real / 1000000.0
  }

  /** The number that %f prints. */
  function Rounded(x: real): real
  {
    if x < 0.0 then -Magnitude(x) else Magnitude(x)
  }

  /** A printed number: its sign and the digits before and after the point. */
  datatype Numeral = Numeral(negative: bool, whole: string, fraction: string)
  {
    predicate Valid()
    {
      whole != "" && AllDigits(whole) && AllDigits(fraction)
    }

    function Unsigned(): string
    {
      whole + "." + fraction
    }

    /** The decimal number, without the sign. */
    function Value(): real
    {
      Reading(whole) as real + Reading(fraction) as real / Pow10(|fraction|) as real
    }

    function Text(): string
    {
      if negative then "-" + Unsigned() else Unsigned()
    }
  }

  /** %f */
  function Print(x: real): (n: Numeral)
    ensures n.Valid()
  {
    Numeral(x < 0.0, Digits(Millionths(x) / MILLION), Padded(Millionths(x) % MILLION, 6))
  }

  lemma RoundingError(x: real)
    ensures -0.0000005 <= Rounded(x) - x <= 0.0000005
  {
    var y := Abs(x) * 1000000.0;
    assert -0.5 <= Millionths(x) as real - y <= 0.5;
    assert Magnitude(x) * 1000000.0 == Millionths(x) as real;
  }

  ghost predicate ReadsAs(g: Grammar, n: Numeral)
  {
    g.number(n.Unsigned()) == Some(Fin(n.Value()))
  }

  /** strconv reads digits, a point and digits as that decimal number. */
  ghost predicate ReadsDecimals(g: Grammar)
  {
    forall n: Numeral | n.Valid() :: ReadsAs(g, n)
  }

  lemma SplitMillionths(n: nat)
    ensures n as real / 1000000.0 == (n / MILLION) as real + (n % MILLION) as real / 1000000.0
  {
    assert n == MILLION * (n / MILLION) + n % MILLION;
    assert n as real == 1000000.0 * (n / MILLION) as real + (n % MILLION) as real;
  }

  lemma SixPlaces()
    ensures Pow10(6) == MILLION
  {
    assert Pow10(3) == 1000;
  }

  lemma PrintedDigits(x: real)
    ensures Reading(Print(x).whole) == Millionths(x) / MILLION
    ensures Reading(Print(x).fraction) == Millionths(x) % MILLION && |Print(x).fraction| == 6
  {
    hide Millionths;
    var n := Millionths(x);
    SixPlaces();
    DigitsRoundTrip(n / MILLION);
    PaddedRoundTrip(n % MILLION, 6);
  }

  /** Printing with six decimals and reading back gives the rounded magnitude. */
  lemma PrintedNumberReads(g: Grammar, x: real)
    requires ReadsDecimals(g)
    ensures g.number(Print(x).Unsigned()) == Some(Fin(Magnitude(x)))
  {
    hide Millionths;
    PrintedDigits(x);
    SixPlaces();
    assert ReadsAs(g, Print(x));
    SplitMillionths(Millionths(x));
  }

  // ---------------------------------------------------------------------- text

  function VarText(name: string): string
  {
    "${" + name + "}"
  }

  /** The names the braced syntax can carry. */
  predicate ValidName(u: Classes, name: string)
  {
    name != "" && forall i | 0 <= i < |name| :: BracedChar(u)(name[i])
  }

  datatype ThresholdFunc = IsAbove | IsBelow | IsWithinRange | IsOutsideRange | Unsupported

  function Comparison(name: string, op: string, n: Numeral): string
  {
    VarText(name) + (" " + op + " ") + n.Text()
  }

  function Condition(name: string, op: string, x: real): string
  {
    Comparison(name, op, Print(x))
  }

  /** createMathExpression; a missing argument is an index out of range in the original. */
  function CreateMathExpression(name: string, f: ThresholdFunc, args: seq<real>): Result<string>
  {
    if f.Unsupported? then Err("no such threshold function")
    else if |args| < (if f.IsAbove? || f.IsBelow? then 1 else 2) then Err("index out of range")
    else match f
      case IsAbove => Ok(Condition(name, ">", args[0]))
      case IsBelow => Ok(Condition(name, "<", args[0]))
      case IsWithinRange => Ok(Condition(name, ">", args[0]) + " && " + Condition(name, "<", args[1]))
      case IsOutsideRange => Ok(Condition(name, "<", args[0]) + " || " + Condition(name, ">", args[1]))
      case Unsupported => Err("")
  }

  // -------------------------------------------------------------------- tokens

  function SignedTokens(n: Numeral): seq<Token>
  {
    if n.negative then [Token(TMinus, "-"), Token(TNumber, n.Unsigned())] else [Token(TNumber, n.Unsigned())]
  }

  function OpKind(op: string): Kind
  {
    if op == ">" then TGreater else TLess
  }

  function ConditionTokens(name: string, op: string, n: Numeral): seq<Token>
  {
    [Token(TVar, VarText(name))] + ([Token(OpKind(op), op)] + SignedTokens(n))
  }

  lemma LexVar(u: Classes, name: string, rest: string)
    requires ValidName(u, name)
    ensures Lex(u, VarText(name) + rest) == [Token(TVar, VarText(name))] + Lex(u, rest)
  {
    var s := VarText(name) + rest;
    assert s[1..] == "{" + (name + ("}" + rest));
    assert s[1..][1..] == name + ("}" + rest);
    RunExact(BracedChar(u), name, "}" + rest);
    assert ScanVar(u, s[1..]) == |name| + 2;
    assert s[..|name| + 3] == VarText(name) && s[|name| + 3..] == rest;
  }

  /** Without a closing brace inside, an invalid name is a lexical error and nothing else is read. */
  lemma LexBadVar(u: Classes, name: string, rest: string)
    requires '}' !in name && !ValidName(u, name)
    ensures Lex(u, VarText(name) + rest) == [Token(TError, "")]
  {
    var s := VarText(name) + rest;
    assert s[1..] == "{" + (name + ("}" + rest));
    assert s[1..][1..] == name + ("}" + rest);
    var k := Run(BracedChar(u), name + ("}" + rest));
    if name == "" {
      assert name + ("}" + rest) == "}" + rest;
      assert k == 0;
    } else {
      var i :| 0 <= i < |name| && !BracedChar(u)(name[i]);
      assert (name + ("}" + rest))[i] == name[i];
      assert k <= i;
      assert s[1..][1 + k] == name[k];
    }
    assert ScanVar(u, s[1..]) == 0;
  }

  lemma LexSpace(u: Classes, rest: string)
    requires Unicode(u)
    ensures Lex(u, " " + rest) == Lex(u, rest)
  {
    assert (" " + rest)[1..] == rest;
  }

  lemma LexSymbol(u: Classes, op: string, rest: string)
    requires op != "" && (forall i | 0 <= i < |op| :: IsSymbol(op[i])) && (rest == "" || !IsSymbol(rest[0]))
    ensures Lex(u, op + rest) == [Token(SymbolKind(op), op)] + Lex(u, rest)
  {
    var s := op + rest;
    assert s[1..] == op[1..] + rest;
    RunExact(IsSymbol, op[1..], rest);
    assert s[..|op|] == op && s[|op|..] == rest;
  }

  /** A symbol between two spaces. */
  lemma LexSpacedSymbol(u: Classes, op: string, rest: string)
    requires Unicode(u) && op != "" && forall i | 0 <= i < |op| :: IsSymbol(op[i])
    ensures Lex(u, " " + op + " " + rest) == [Token(SymbolKind(op), op)] + Lex(u, rest)
  {
    assert " " + op + " " + rest == " " + (op + (" " + rest));
    LexSpace(u, op + (" " + rest));
    LexSymbol(u, op, " " + rest);
    LexSpace(u, rest);
  }

  lemma DigitsEndExact(s: string, i: nat, a: string, b: string)
    requires i <= |s| && s[i..] == a + b && AllDigits(a) && (b == "" || !IsDecimal(b[0]))
    ensures DigitsEnd(IsDecimal, s, i) == i + |a|
  {
    RunExact(IsDecimal, a, b);
  }

  lemma DecimalSlices(s: string, whole: string, fraction: string, rest: string, start: nat)
    requires s == whole + ("." + (fraction + rest)) && start <= |whole|
    ensures s[start..] == whole[start..] + ("." + (fraction + rest))
    ensures |whole| < |s| && s[|whole|] == '.' && s[|whole| + 1..] == fraction + rest
    ensures var n := |whole| + 1 + |fraction|; n <= |s| && s[n..] == rest
  {
  }

  lemma ScanDecimal(s: string, whole: string, fraction: string, rest: string)
    requires s == whole + ("." + (fraction + rest))
    requires whole != "" && AllDigits(whole) && AllDigits(fraction) && (rest == "" || rest[0] == ' ')
    ensures ScanNumber(s) == |whole| + 1 + |fraction|
  {
    hide DigitsEnd;
    assert s[0] == whole[0];
    assert s[1] == if |whole| > 1 then whole[1] else '.';
    var start := if s[0] == '0' then 1 else 0;
    DecimalSlices(s, whole, fraction, rest, start);
    DigitsEndExact(s, start, whole[start..], "." + (fraction + rest));
    DigitsEndExact(s, |whole| + 1, fraction, rest);
    var n := |whole| + 1 + |fraction|;
    assert n < |s| ==> s[n] == s[n..][0];
  }

  lemma FirstDigit(c: char)
    requires IsDecimal(c)
    ensures c != '$' && !IsSymbol(c)
  {
  }

  lemma LexNumber(u: Classes, s: string, n: nat)
    requires s != "" && IsDecimal(s[0]) && Unicode(u) && 0 < n <= |s| && ScanNumber(s) == n
    ensures Lex(u, s) == [Token(TNumber, s[..n])] + Lex(u, s[n..])
  {
    FirstDigit(s[0]);
  }

  lemma LexDecimal(u: Classes, n: Numeral, rest: string)
    requires Unicode(u) && n.Valid() && (rest == "" || rest[0] == ' ')
    ensures Lex(u, n.Unsigned() + rest) == [Token(TNumber, n.Unsigned())] + Lex(u, rest)
  {
    hide Lex;
    hide ScanNumber;
    var s := n.Unsigned() + rest;
    assert s == n.whole + ("." + (n.fraction + rest));
    ScanDecimal(s, n.whole, n.fraction, rest);
    assert s[0] == n.whole[0];
    var k := |n.Unsigned()|;
    LexNumber(u, s, k);
    assert s[..k] == n.Unsigned() && s[k..] == rest;
  }

  lemma LexSigned(u: Classes, n: Numeral, rest: string)
    requires Unicode(u) && n.Valid() && (rest == "" || rest[0] == ' ')
    ensures Lex(u, n.Text() + rest) == SignedTokens(n) + Lex(u, rest)
  {
    hide Lex;
    LexDecimal(u, n, rest);
    if n.negative {
      var tail := n.Unsigned() + rest;
      assert n.Text() + rest == "-" + tail;
      assert tail[0] == n.whole[0] && IsDecimal(n.whole[0]);
      LexSymbol(u, "-", tail);
    }
  }

  lemma Regroup<T>(a: seq<T>, b: seq<T>, c: seq<T>, d: seq<T>)
    ensures a + (b + (c + d)) == a + (b + c) + d
  {
  }

  lemma ComparisonText(name: string, op: string, n: Numeral, rest: string)
    ensures Comparison(name, op, n) + rest == VarText(name) + (" " + op + " " + (n.Text() + rest))
  {
    hide VarText;
    assert " " + op + " " + (n.Text() + rest) == (" " + op + " ") + (n.Text() + rest);
    Regroup(VarText(name), " " + op + " ", n.Text(), rest);
    assert Comparison(name, op, n) + rest == VarText(name) + (" " + op + " ") + n.Text() + rest;
  }

  lemma LexComparison(u: Classes, name: string, op: string, n: Numeral, rest: string)
    requires Unicode(u) && ValidName(u, name) && op in {">", "<"} && n.Valid() && (rest == "" || rest[0] == ' ')
    ensures Lex(u, Comparison(name, op, n) + rest) == ConditionTokens(name, op, n) + Lex(u, rest)
  {
    hide Lex;
    hide VarText;
    hide Comparison;
    hide SignedTokens;
    hide ValidName;
    hide Unicode;
    var tail := n.Text() + rest;
    LexSigned(u, n, rest);
    LexOperator(u, op, tail);
    LexVar(u, name, " " + op + " " + tail);
    ComparisonText(name, op, n, rest);
    Regroup([Token(TVar, VarText(name))], [Token(OpKind(op), op)], SignedTokens(n), Lex(u, rest));
  }

  lemma LexOperator(u: Classes, op: string, rest: string)
    requires Unicode(u) && op in {">", "<"}
    ensures Lex(u, " " + op + " " + rest) == [Token(OpKind(op), op)] + Lex(u, rest)
  {
    hide Lex;
    LexSpacedSymbol(u, op, rest);
  }

  // --------------------------------------------------------------------- trees

  /** A bound as it is read back: its sign and what the number reader makes of its digits. */
  datatype Bound = Bound(negative: bool, read: Float)
  {
    function Value(): Float
    {
      if negative then Negate(read) else read
    }
  }

  /** The reader accepts the printed digits. */
  predicate Reads(g: Grammar, x: real)
  {
    g.number(Print(x).Unsigned()).Some?
  }

  function BoundOf(g: Grammar, x: real): Bound
    requires Reads(g, x)
  {
    Bound(x < 0.0, g.number(Print(x).Unsigned()).value)
  }

  /** An exact reader reads every bound, as the number that was printed. */
  lemma ExactBound(g: Grammar, x: real)
    requires ReadsDecimals(g)
    ensures Reads(g, x) && BoundOf(g, x).Value() == Fin(Rounded(x))
  {
    hide Millionths;
    PrintedNumberReads(g, x);
  }

  function SignedNode(b: Bound): Node
  {
    if b.negative then UnaryNode("-", ScalarNode(b.read)) else ScalarNode(b.read)
  }

  function ConditionNode(name: string, op: string, b: Bound): Node
  {
    BinaryNode(op, VarNode(name), SignedNode(b))
  }

  ghost predicate TokensAt(ts: seq<Token>, pos: nat, part: seq<Token>)
  {
    pos + |part| <= |ts| && ts[pos..pos + |part|] == part
  }

  /** No operator of this or a tighter level follows. */
  predicate Ends(ts: seq<Token>, pos: nat, level: nat)
  {
    forall l | level <= l < 6 :: KindAt(ts, pos) !in OpsAt(l)
  }

  lemma LevelUp(g: Grammar, ts: seq<Token>, pos: nat, level: nat)
    requires level < 6
    requires var r := ParseLevel(g, ts, pos, level + 1); r.Done? && KindAt(ts, r.pos) !in OpsAt(level)
    ensures ParseLevel(g, ts, pos, level) == ParseLevel(g, ts, pos, level + 1)
  {
    var r := ParseLevel(g, ts, pos, level + 1);
    assert ParseMore(g, ts, r.pos, level, r.node) == Done(r.node, r.pos, []);
    assert r.vars + [] == r.vars;
  }

  /** A factor that no operator follows is the whole operand. */
  lemma {:induction false} FactorUp(g: Grammar, ts: seq<Token>, pos: nat, level: nat)
    requires level <= 6
    requires var r := ParseFactor(g, ts, pos); r.Done? && Ends(ts, r.pos, level)
    ensures ParseLevel(g, ts, pos, level) == ParseFactor(g, ts, pos)
    decreases 6 - level
  {
    if level < 6 {
      FactorUp(g, ts, pos, level + 1);
      LevelUp(g, ts, pos, level);
    }
  }

  lemma VarNameOfText(name: string)
    ensures VarName(VarText(name)) == name
  {
    assert VarText(name)[1..] == "{" + (name + "}");
    assert ("{" + (name + "}"))[1..] == name + "}";
    assert (name + "}")[..|name|] == name;
  }

  lemma ParseSigned(g: Grammar, ts: seq<Token>, pos: nat, n: Numeral, v: Float)
    requires g.number(n.Unsigned()) == Some(v) && TokensAt(ts, pos, SignedTokens(n))
    ensures ParseFactor(g, ts, pos) ==
      Done(if n.negative then UnaryNode("-", ScalarNode(v)) else ScalarNode(v), pos + |SignedTokens(n)|, [])
  {
    var part := SignedTokens(n);
    assert ts[pos] == part[0];
    if n.negative {
      assert ts[pos + 1] == part[1];
      assert ParseFactor(g, ts, pos + 1) == Done(ScalarNode(v), pos + 2, []);
      assert ParseFactor(g, ts, pos) == ParseUnary(g, ts, pos);
    }
  }

  lemma JoinLevel(g: Grammar, ts: seq<Token>, pos: nat, level: nat)
    requires level < 6
    requires
      var a := ParseLevel(g, ts, pos, level + 1);
      a.Done? && a.pos < |ts| && ts[a.pos].kind in OpsAt(level) &&
      var b := ParseLevel(g, ts, a.pos + 1, level + 1);
      b.Done? && KindAt(ts, b.pos) !in OpsAt(level)
    ensures
      var a := ParseLevel(g, ts, pos, level + 1);
      var b := ParseLevel(g, ts, a.pos + 1, level + 1);
      ParseLevel(g, ts, pos, level) == Done(BinaryNode(ts[a.pos].text, a.node, b.node), b.pos, a.vars + b.vars)
  {
    var a := ParseLevel(g, ts, pos, level + 1);
    var b := ParseLevel(g, ts, a.pos + 1, level + 1);
    var node := BinaryNode(ts[a.pos].text, a.node, b.node);
    assert ParseMore(g, ts, b.pos, level, node) == Done(node, b.pos, []);
    assert b.vars + [] == b.vars;
    assert ParseMore(g, ts, a.pos, level, a.node) == Done(node, b.pos, b.vars);
  }

  lemma ParseCondition(g: Grammar, ts: seq<Token>, pos: nat, name: string, op: string, x: real)
    requires Reads(g, x) && op in {">", "<"} && TokensAt(ts, pos, ConditionTokens(name, op, Print(x)))
    requires KindAt(ts, pos + |ConditionTokens(name, op, Print(x))|) in {TEOF, TAnd, TOr}
    ensures ParseLevel(g, ts, pos, 2) ==
      Done(ConditionNode(name, op, BoundOf(g, x)), pos + |ConditionTokens(name, op, Print(x))|, [name])
  {
    hide Millionths;
    ParseComparison(g, ts, pos, name, op, Print(x), BoundOf(g, x).read);
  }

  lemma {:induction false} FailUp(g: Grammar, ts: seq<Token>, pos: nat, level: nat)
    requires level <= 6 && ParseFactor(g, ts, pos).Fail?
    ensures ParseLevel(g, ts, pos, level).Fail?
    decreases 6 - level
  {
    if level < 6 {
      FailUp(g, ts, pos, level + 1);
    }
  }

  /** An operand that fails takes the comparison with it. */
  lemma JoinFails(g: Grammar, ts: seq<Token>, pos: nat, level: nat)
    requires level < 6
    requires
      var a := ParseLevel(g, ts, pos, level + 1);
      a.Done? && a.pos < |ts| && ts[a.pos].kind in OpsAt(level) && ParseLevel(g, ts, a.pos + 1, level + 1).Fail?
    ensures ParseLevel(g, ts, pos, level).Fail?
  {
    var a := ParseLevel(g, ts, pos, level + 1);
    assert ParseMore(g, ts, a.pos, level, a.node).Fail?;
  }

  lemma SignedFails(g: Grammar, ts: seq<Token>, pos: nat, n: Numeral)
    requires g.number(n.Unsigned()).None? && TokensAt(ts, pos, SignedTokens(n))
    ensures ParseFactor(g, ts, pos).Fail?
  {
    var part := SignedTokens(n);
    assert ts[pos] == part[0];
    if n.negative {
      assert ts[pos + 1] == part[1];
      assert ParseFactor(g, ts, pos + 1).Fail?;
    }
  }

  /** A comparison whose bound the reader refuses does not parse. */
  lemma ConditionFails(g: Grammar, ts: seq<Token>, pos: nat, name: string, op: string, x: real)
    requires !Reads(g, x) && op in {">", "<"} && TokensAt(ts, pos, ConditionTokens(name, op, Print(x)))
    ensures ParseLevel(g, ts, pos, 2).Fail?
  {
    hide ParseLevel;
    hide ParseFactor;
    hide Print;
    ConditionParts(ts, pos, name, op, Print(x));
    ParseVariable(g, ts, pos, name);
    SignedFails(g, ts, pos + 2, Print(x));
    FailUp(g, ts, pos + 2, 3);
    JoinFails(g, ts, pos, 2);
  }

  lemma ParseComparison(g: Grammar, ts: seq<Token>, pos: nat, name: string, op: string, n: Numeral, v: Float)
    requires g.number(n.Unsigned()) == Some(v) && op in {">", "<"} && TokensAt(ts, pos, ConditionTokens(name, op, n))
    requires KindAt(ts, pos + |ConditionTokens(name, op, n)|) in {TEOF, TAnd, TOr}
    ensures ParseLevel(g, ts, pos, 2) ==
      Done(BinaryNode(op, VarNode(name), if n.negative then UnaryNode("-", ScalarNode(v)) else ScalarNode(v)),
           pos + |ConditionTokens(name, op, n)|, [name])
  {
    hide ParseLevel;
    ConditionParts(ts, pos, name, op, n);
    ParseVariable(g, ts, pos, name);
    ParseOperand(g, ts, pos + 2, n, v);
    JoinLevel(g, ts, pos, 2);
    assert [name] + [] == [name];
  }

  lemma ConditionParts(ts: seq<Token>, pos: nat, name: string, op: string, n: Numeral)
    requires TokensAt(ts, pos, ConditionTokens(name, op, n))
    ensures ts[pos] == Token(TVar, VarText(name)) && ts[pos + 1] == Token(OpKind(op), op)
    ensures TokensAt(ts, pos + 2, SignedTokens(n))
  {
    var part := ConditionTokens(name, op, n);
    assert ts[pos] == part[0] && ts[pos + 1] == part[1];
    assert part[2..] == SignedTokens(n);
    assert ts[pos + 2..pos + |part|] == ts[pos..pos + |part|][2..];
  }

  lemma ParseOperand(g: Grammar, ts: seq<Token>, pos: nat, n: Numeral, v: Float)
    requires g.number(n.Unsigned()) == Some(v) && TokensAt(ts, pos, SignedTokens(n))
    requires KindAt(ts, pos + |SignedTokens(n)|) in {TEOF, TAnd, TOr}
    ensures ParseLevel(g, ts, pos, 3) ==
      Done(if n.negative then UnaryNode("-", ScalarNode(v)) else ScalarNode(v), pos + |SignedTokens(n)|, [])
  {
    hide ParseLevel;
    ParseSigned(g, ts, pos, n, v);
    FactorUp(g, ts, pos, 3);
  }

  lemma ParseVariable(g: Grammar, ts: seq<Token>, pos: nat, name: string)
    requires pos + 1 < |ts| && ts[pos] == Token(TVar, VarText(name)) && ts[pos + 1].kind in {TGreater, TLess}
    ensures ParseLevel(g, ts, pos, 3) == Done(VarNode(name), pos + 1, [name])
  {
    hide ParseLevel;
    VarNameOfText(name);
    hide VarName;
    hide VarText;
    FactorUp(g, ts, pos, 3);
  }

  // ------------------------------------------------------------ two arguments

  /** Parentheses and commas are neither digits nor letters. */
  ghost predicate Punctuation(u: Classes)
  {
    !u.digit('(') && !u.letter('(') && !u.digit(',') && !u.letter(',')
  }

  lemma LexName(u: Classes, name: string, rest: string)
    requires name != "" && u.letter(name[0]) && !u.digit(name[0])
    requires name[0] != '$' && name[0] != '.' && !IsSymbol(name[0])
    requires forall i | 0 <= i < |name| :: u.letter(name[i]) || name[i] == '_'
    requires rest != "" && !u.letter(rest[0]) && rest[0] != '_'
    ensures Lex(u, name + rest) == [Token(TFunc, name)] + Lex(u, rest)
  {
    var p := d => u.letter(d) || d == '_';
    var s := name + rest;
    assert s[1..] == name[1..] + rest;
    RunExact(p, name[1..], rest);
    assert s[..|name|] == name && s[|name|..] == rest;
  }

  /** A variable without braces ends before the first character that is no letter, digit or underscore. */
  lemma LexPlainVar(u: Classes, name: string, rest: string)
    requires name != "" && forall i | 0 <= i < |name| :: u.letter(name[i]) || u.digit(name[i]) || name[i] == '_'
    requires name[0] != '{' && name[|name| - 1] != '}' && (rest == "" || !IsVarChar(u, rest[0]))
    ensures Lex(u, "$" + name + rest) == [Token(TVar, "$" + name)] + Lex(u, rest)
    ensures VarName("$" + name) == name
  {
    var s := "$" + name + rest;
    assert s[1..] == name + rest;
    RunExact(NameChar(u), name, rest);
    assert s[..|name| + 1] == "$" + name && s[|name| + 1..] == rest;
    assert ("$" + name)[1..] == name;
  }

  lemma LexLeftParen(u: Classes, rest: string)
    requires Punctuation(u)
    ensures Lex(u, "(" + rest) == [Token(TLeftParen, "(")] + Lex(u, rest)
  {
    assert ("(" + rest)[1..] == rest;
  }

  lemma LexComma(u: Classes, rest: string)
    requires Punctuation(u)
    ensures Lex(u, "," + rest) == [Token(TComma, ",")] + Lex(u, rest)
  {
    assert ("," + rest)[1..] == rest;
  }

  /** The documented way to pass two arguments, a comma after the first, is refused whatever follows. */
  lemma TwoArgumentsAreRefused(u: Classes, g: Grammar, name: string, arg: string, rest: string)
    requires Punctuation(u) && ValidName(u, arg)
    requires name != "" && forall i | 0 <= i < |name| :: u.letter(name[i]) && !u.digit(name[i])
    requires forall i | 0 <= i < |name| :: name[i] != '$' && name[i] != '.' && !IsSymbol(name[i])
    ensures Parse(u, g, name + ("(" + (VarText(arg) + ("," + rest)))).None?
  {
    hide Lex;
    hide Parse;
    var text := name + ("(" + (VarText(arg) + ("," + rest)));
    LexName(u, name, "(" + (VarText(arg) + ("," + rest)));
    LexLeftParen(u, VarText(arg) + ("," + rest));
    LexVar(u, arg, "," + rest);
    LexComma(u, rest);
    assert Lex(u, text)[3] == Token(TComma, ",");
    CommaNeverParses(u, g, text, 3);
  }
}
