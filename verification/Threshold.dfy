/**
  The threshold command end to end: the printed expression is lexed, parsed and evaluated, and
  what comes out is one verdict per input value.
*/
module Threshold {
  import opened Wrappers
  import opened MathValues
  import opened MathLexer
  import opened MathParser
  import opened MathEval
  import opened ThresholdText

  /** Everything outside the command that its execution depends on. */
  datatype Env = Env(classes: Classes, grammar: Grammar, lib: Library)

  /** What Execute does: print, parse, walk. The parsed command is given the input's name as its own. */
  function ThresholdExecute(env: Env, name: string, f: ThresholdFunc, args: seq<real>, vars: Vars): Result<Results>
  {
    var text := CreateMathExpression(name, f, args);
    if text.Err? then Err(text.message)
    else
      var tree := Parse(env.classes, env.grammar, text.value);
      if tree.None? then Err("invalid expression") else Walk(env.lib, name, vars, tree.value.root)
  }

  predicate EnoughArgs(f: ThresholdFunc, args: seq<real>)
  {
    !f.Unsupported? && |args| >= (if f.IsAbove? || f.IsBelow? then 1 else 2)
  }

  // --------------------------------------------------------------- compilation

  /** The number reader accepts every bound the function uses. */
  predicate ReadsAll(g: Grammar, f: ThresholdFunc, args: seq<real>)
    requires EnoughArgs(f, args)
  {
    Reads(g, args[0]) && (f.IsWithinRange? || f.IsOutsideRange? ==> Reads(g, args[1]))
  }

  function Compiled(g: Grammar, name: string, f: ThresholdFunc, args: seq<real>): Node
    requires EnoughArgs(f, args) && ReadsAll(g, f, args)
  {
    var b := BoundOf(g, args[0]);
    match f
    case IsAbove => ConditionNode(name, ">", b)
    case IsBelow => ConditionNode(name, "<", b)
    case IsWithinRange => BinaryNode("&&", ConditionNode(name, ">", b), ConditionNode(name, "<", BoundOf(g, args[1])))
    case IsOutsideRange => BinaryNode("||", ConditionNode(name, "<", b), ConditionNode(name, ">", BoundOf(g, args[1])))
    case Unsupported => ScalarNode(NaN)
  }

  lemma LexEnd(u: Classes)
    ensures Lex(u, "") == [Token(TEOF, "")]
  {
  }

  lemma SimpleTokens(u: Classes, name: string, op: string, x: real)
    requires Unicode(u) && ValidName(u, name) && op in {">", "<"}
    ensures Lex(u, Condition(name, op, x)) == ConditionTokens(name, op, Print(x)) + [Token(TEOF, "")]
  {
    hide Lex;
    LexComparison(u, name, op, Print(x), "");
    LexEnd(u);
    assert Condition(name, op, x) + "" == Condition(name, op, x);
  }

  /** The tokens of two printed conditions and what joins them. */
  function JoinedTokens(name: string, op1: string, x: real, join: string, op2: string, y: real): seq<Token>
  {
    ConditionTokens(name, op1, Print(x)) + ([Token(SymbolKind(join), join)] +
      (ConditionTokens(name, op2, Print(y)) + [Token(TEOF, "")]))
  }

  lemma RangeTokens(u: Classes, name: string, op1: string, x: real, join: string, op2: string, y: real)
    requires Unicode(u) && ValidName(u, name) && op1 in {">", "<"} && op2 in {">", "<"} && join in {"&&", "||"}
    ensures Lex(u, Condition(name, op1, x) + (" " + join + " ") + Condition(name, op2, y)) ==
      JoinedTokens(name, op1, x, join, op2, y)
  {
    hide Lex;
    var second := Condition(name, op2, y);
    SimpleTokens(u, name, op2, y);
    LexSpacedSymbol(u, join, second);
    LexComparison(u, name, op1, Print(x), " " + join + " " + second);
    assert Condition(name, op1, x) + (" " + join + " ") + second == Condition(name, op1, x) + (" " + join + " " + second);
  }

  lemma ParseSimple(g: Grammar, ts: seq<Token>, name: string, op: string, x: real)
    requires op in {">", "<"} && ts == ConditionTokens(name, op, Print(x)) + [Token(TEOF, "")]
    ensures ParseLevel(g, ts, 0, 0) ==
      if Reads(g, x) then Done(ConditionNode(name, op, BoundOf(g, x)), |ts| - 1, [name]) else Fail
  {
    hide ParseLevel;
    hide Print;
    if Reads(g, x) {
      ParseCondition(g, ts, 0, name, op, x);
      LevelUp(g, ts, 0, 1);
      LevelUp(g, ts, 0, 0);
    } else {
      ConditionFails(g, ts, 0, name, op, x);
      FailFrom(g, ts, 0, 2);
    }
  }

  /** A level fails when the next tighter one does. */
  lemma {:induction false} FailFrom(g: Grammar, ts: seq<Token>, pos: nat, level: nat)
    requires level <= 2 && ParseLevel(g, ts, pos, level).Fail?
    ensures forall l: nat | l <= level :: ParseLevel(g, ts, pos, l).Fail?
  {
    if level > 0 {
      assert ParseLevel(g, ts, pos, level - 1).Fail?;
      FailFrom(g, ts, pos, level - 1);
    }
  }

  /** A second condition that fails takes the whole expression with it. */
  lemma JoinedFails(g: Grammar, ts: seq<Token>, p: nat)
    requires ParseLevel(g, ts, 0, 2).Done? && ParseLevel(g, ts, 0, 2).pos == p && p < |ts| && ts[p].kind in {TAnd, TOr}
    requires ParseLevel(g, ts, p + 1, 2).Fail?
    ensures ParseLevel(g, ts, 0, 0).Fail?
  {
    hide ParseLevel;
    FailFrom(g, ts, p + 1, 2);
    if ts[p].kind == TAnd {
      JoinFails(g, ts, 0, 1);
      FailFrom(g, ts, 0, 1);
    } else {
      LevelUp(g, ts, 0, 1);
      JoinFails(g, ts, 0, 0);
    }
  }

  lemma RangeParts(ts: seq<Token>, c1: seq<Token>, join: Token, c2: seq<Token>)
    requires ts == c1 + ([join] + (c2 + [Token(TEOF, "")]))
    ensures TokensAt(ts, 0, c1) && |c1| < |ts| && ts[|c1|] == join
    ensures TokensAt(ts, |c1| + 1, c2) && |ts| == |c1| + |c2| + 2 && ts[|ts| - 1] == Token(TEOF, "")
  {
  }

  /** Two conditions joined by && or || and followed by the end of the text. */
  lemma JoinConditions(g: Grammar, ts: seq<Token>, p: nat, q: nat, n1: Node, n2: Node, join: Token, name: string)
    requires ParseLevel(g, ts, 0, 2) == Done(n1, p, [name]) && ParseLevel(g, ts, p + 1, 2) == Done(n2, q, [name])
    requires p < q < |ts| && ts[p] == join && join.kind in {TAnd, TOr} && ts[q].kind == TEOF
    ensures ParseLevel(g, ts, 0, 0) == Done(BinaryNode(join.text, n1, n2), q, [name] + [name])
  {
    hide ParseLevel;
    if join.kind == TAnd {
      JoinLevel(g, ts, 0, 1);
      LevelUp(g, ts, 0, 0);
    } else {
      LevelUp(g, ts, 0, 1);
      LevelUp(g, ts, p + 1, 1);
      JoinLevel(g, ts, 0, 0);
    }
  }

  lemma ParseRange(g: Grammar, name: string, op1: string, x: real, join: string, op2: string, y: real)
    requires op1 in {">", "<"} && op2 in {">", "<"} && join in {"&&", "||"}
    ensures
      var ts := JoinedTokens(name, op1, x, join, op2, y);
      |ts| > 0 && ts[|ts| - 1].kind == TEOF && ParseLevel(g, ts, 0, 0) ==
        if !Reads(g, x) || !Reads(g, y) then Fail
        else Done(BinaryNode(join, ConditionNode(name, op1, BoundOf(g, x)), ConditionNode(name, op2, BoundOf(g, y))),
                  |ts| - 1, [name] + [name])
  {
    hide ParseLevel;
    hide Print;
    var ts := JoinedTokens(name, op1, x, join, op2, y);
    var c1, c2 := ConditionTokens(name, op1, Print(x)), ConditionTokens(name, op2, Print(y));
    RangeParts(ts, c1, Token(SymbolKind(join), join), c2);
    if !Reads(g, x) {
      ConditionFails(g, ts, 0, name, op1, x);
      FailFrom(g, ts, 0, 2);
    } else {
      ParseCondition(g, ts, 0, name, op1, x);
      if !Reads(g, y) {
        ConditionFails(g, ts, |c1| + 1, name, op2, y);
        JoinedFails(g, ts, |c1|);
      } else {
        ParseCondition(g, ts, |c1| + 1, name, op2, y);
        JoinConditions(g, ts, |c1|, |ts| - 1, ConditionNode(name, op1, BoundOf(g, x)), ConditionNode(name, op2, BoundOf(g, y)),
                       Token(SymbolKind(join), join), name);
      }
    }
  }

  lemma CompileSimple(u: Classes, g: Grammar, name: string, op: string, x: real)
    requires Unicode(u) && ValidName(u, name) && op in {">", "<"}
    ensures Parse(u, g, Condition(name, op, x)) ==
      if Reads(g, x) then Some(Tree(ConditionNode(name, op, BoundOf(g, x)), [name])) else None
  {
    hide Lex;
    hide ParseLevel;
    SimpleTokens(u, name, op, x);
    ParseSimple(g, Lex(u, Condition(name, op, x)), name, op, x);
  }

  lemma CompileRange(u: Classes, g: Grammar, name: string, op1: string, x: real, join: string, op2: string, y: real)
    requires Unicode(u) && ValidName(u, name)
    requires op1 in {">", "<"} && op2 in {">", "<"} && join in {"&&", "||"}
    ensures Parse(u, g, Condition(name, op1, x) + (" " + join + " ") + Condition(name, op2, y)) ==
      if !Reads(g, x) || !Reads(g, y) then None
      else Some(Tree(BinaryNode(join, ConditionNode(name, op1, BoundOf(g, x)), ConditionNode(name, op2, BoundOf(g, y))),
                     [name] + [name]))
  {
    hide Lex;
    hide ParseLevel;
    hide Condition;
    hide JoinedTokens;
    RangeTokens(u, name, op1, x, join, op2, y);
    ParseRange(g, name, op1, x, join, op2, y);
  }

  /**
    Every supported threshold with a lexable name compiles if and only if the reader accepts its
    bounds, and then to the intended tree over the bounds as read, which reads that name alone.
  */
  lemma ThresholdCompiles(env: Env, name: string, f: ThresholdFunc, args: seq<real>)
    requires Unicode(env.classes) && ValidName(env.classes, name) && EnoughArgs(f, args)
    ensures
      var tree := Parse(env.classes, env.grammar, CreateMathExpression(name, f, args).value);
      && (tree.Some? <==> ReadsAll(env.grammar, f, args))
      && (tree.Some? ==> tree.value.root == Compiled(env.grammar, name, f, args) &&
                         forall v :: v in tree.value.varNames <==> v == name)
  {
    hide Parse;
    hide Condition;
    var u, g := env.classes, env.grammar;
    assert " " + "&&" + " " == " && " && " " + "||" + " " == " || ";
    match f {
      case IsAbove => CompileSimple(u, g, name, ">", args[0]);
      case IsBelow => CompileSimple(u, g, name, "<", args[0]);
      case IsWithinRange => CompileRange(u, g, name, ">", args[0], "&&", "<", args[1]);
      case IsOutsideRange => CompileRange(u, g, name, "<", args[0], "||", ">", args[1]);
    }
  }

  lemma ConditionStarts(name: string, op: string, x: real)
    ensures VarText(name) <= Condition(name, op, x)
  {
  }

  lemma TextStartsWithName(name: string, f: ThresholdFunc, args: seq<real>)
    requires EnoughArgs(f, args)
    ensures VarText(name) <= CreateMathExpression(name, f, args).value
  {
    hide Condition;
    ConditionStarts(name, if f.IsAbove? || f.IsWithinRange? then ">" else "<", args[0]);
  }

  lemma BadTextFails(u: Classes, g: Grammar, name: string, rest: string)
    requires '}' !in name && !ValidName(u, name)
    ensures Parse(u, g, VarText(name) + rest).None?
  {
    hide Lex;
    LexBadVar(u, name, rest);
    FailUp(g, [Token(TError, "")], 0, 0);
  }

  /** A name that the braces cannot carry, but that does not close them, is refused by the lexer. */
  lemma BadNameFails(env: Env, name: string, f: ThresholdFunc, args: seq<real>)
    requires EnoughArgs(f, args) && '}' !in name && !ValidName(env.classes, name)
    ensures Parse(env.classes, env.grammar, CreateMathExpression(name, f, args).value).None?
  {
    hide Parse;
    hide Condition;
    var text := CreateMathExpression(name, f, args).value;
    TextStartsWithName(name, f, args);
    var rest := text[|VarText(name)|..];
    assert text == VarText(name) + rest;
    BadTextFails(env.classes, env.grammar, name, rest);
  }

  lemma VarStarts(u: Classes, text: string)
    requires text != "" && text[0] == '$'
    ensures Lex(u, text)[0].kind in {TVar, TError}
  {
    hide ScanVar;
  }

  /** A text that starts with a dollar sign mentions a variable if it parses. */
  lemma VarTextMentions(u: Classes, g: Grammar, text: string)
    requires text != "" && text[0] == '$' && Parse(u, g, text).Some?
    ensures Parse(u, g, text).value.varNames != []
  {
    hide Lex;
    VarStarts(u, text);
    var ts := Lex(u, text);
    if ts[0].kind == TVar {
      LevelStartsWithVar(g, ts, 0, 0);
    } else {
      FailUp(g, ts, 0, 0);
    }
  }

  /** The only variable tokens are the declared variable's. */
  ghost predicate OnlyVar(ts: seq<Token>, name: string)
  {
    forall i | 0 <= i < |ts| && ts[i].kind == TVar :: ts[i].text == VarText(name)
  }

  lemma SignedTokensHaveNoVar(n: Numeral, i: nat)
    requires i < |SignedTokens(n)|
    ensures SignedTokens(n)[i].kind != TVar
  {
  }

  lemma ConditionHasOnlyVar(name: string, op: string, n: Numeral)
    requires op in {">", "<"}
    ensures OnlyVar(ConditionTokens(name, op, n), name)
  {
    var ts := ConditionTokens(name, op, n);
    forall i | 0 <= i < |ts| && ts[i].kind == TVar ensures ts[i].text == VarText(name) {
      if i >= 2 {
        SignedTokensHaveNoVar(n, i - 2);
      }
    }
  }

  lemma OnlyVarConcat(a: seq<Token>, b: seq<Token>, name: string)
    requires OnlyVar(a, name) && OnlyVar(b, name)
    ensures OnlyVar(a + b, name)
  {
  }

  lemma SimpleHasOnlyVar(u: Classes, name: string, op: string, x: real)
    requires Unicode(u) && ValidName(u, name) && op in {">", "<"}
    ensures OnlyVar(Lex(u, Condition(name, op, x)), name)
  {
    hide Lex;
    hide Condition;
    hide ConditionTokens;
    SimpleTokens(u, name, op, x);
    ConditionHasOnlyVar(name, op, Print(x));
    OnlyVarConcat(ConditionTokens(name, op, Print(x)), [Token(TEOF, "")], name);
  }

  lemma RangeHasOnlyVar(u: Classes, name: string, op1: string, x: real, join: string, op2: string, y: real)
    requires Unicode(u) && ValidName(u, name) && op1 in {">", "<"} && op2 in {">", "<"} && join in {"&&", "||"}
    ensures OnlyVar(Lex(u, Condition(name, op1, x) + (" " + join + " ") + Condition(name, op2, y)), name)
  {
    hide Lex;
    hide Condition;
    hide ConditionTokens;
    hide Print;
    var c1, c2 := ConditionTokens(name, op1, Print(x)), ConditionTokens(name, op2, Print(y));
    var middle, end := [Token(SymbolKind(join), join)], [Token(TEOF, "")];
    RangeTokens(u, name, op1, x, join, op2, y);
    ConditionHasOnlyVar(name, op1, Print(x));
    ConditionHasOnlyVar(name, op2, Print(y));
    assert OnlyVar(middle, name) && OnlyVar(end, name);
    hide OnlyVar;
    OnlyVarConcat(c2, end, name);
    OnlyVarConcat(middle, c2 + end, name);
    OnlyVarConcat(c1, middle + (c2 + end), name);
  }

  lemma TextHasOnlyVar(u: Classes, name: string, f: ThresholdFunc, args: seq<real>)
    requires Unicode(u) && ValidName(u, name) && EnoughArgs(f, args)
    ensures OnlyVar(Lex(u, CreateMathExpression(name, f, args).value), name)
  {
    hide Lex;
    hide Condition;
    hide OnlyVar;
    assert " " + "&&" + " " == " && " && " " + "||" + " " == " || ";
    match f {
      case IsAbove => SimpleHasOnlyVar(u, name, ">", args[0]);
      case IsBelow => SimpleHasOnlyVar(u, name, "<", args[0]);
      case IsWithinRange => RangeHasOnlyVar(u, name, ">", args[0], "&&", "<", args[1]);
      case IsOutsideRange => RangeHasOnlyVar(u, name, "<", args[0], "||", ">", args[1]);
    }
  }

  lemma ParsedVarIsOnlyVar(u: Classes, g: Grammar, text: string, name: string)
    requires OnlyVar(Lex(u, text), name) && Parse(u, g, text).Some?
    ensures forall v | v in Parse(u, g, text).value.varNames :: v == name
  {
    hide Lex;
    hide ParseLevel;
    hide Check;
    hide VarName;
    hide VarText;
    var ts := Lex(u, text);
    LevelReads(g, ts, 0, 0);
    VarNameOfText(name);
    forall v | IsVarOf(ts, v) ensures v == name {
      var i :| 0 <= i < |ts| && ts[i].kind == TVar && VarName(ts[i].text) == v;
    }
  }

  /** Whatever the number reader does: a threshold with a lexable name reads exactly that variable, if it compiles. */
  lemma ValidNameReadsItself(env: Env, name: string, f: ThresholdFunc, args: seq<real>)
    requires Unicode(env.classes) && ValidName(env.classes, name) && EnoughArgs(f, args)
    ensures
      var tree := Parse(env.classes, env.grammar, CreateMathExpression(name, f, args).value);
      tree.Some? ==> forall v :: v in tree.value.varNames <==> v == name
  {
    hide Parse;
    hide Lex;
    hide Condition;
    hide OnlyVar;
    var text := CreateMathExpression(name, f, args).value;
    TextStartsWithName(name, f, args);
    assert text[0] == VarText(name)[0];
    TextHasOnlyVar(env.classes, name, f, args);
    var tree := Parse(env.classes, env.grammar, text);
    if tree.Some? {
      ParsedVarIsOnlyVar(env.classes, env.grammar, text, name);
      VarTextMentions(env.classes, env.grammar, text);
      assert tree.value.varNames[0] in tree.value.varNames;
    }
  }

  lemma ValidThresholdIsLocal(env: Env, name: string, f: ThresholdFunc, args: seq<real>, vars: Vars, vars': Vars)
    requires Unicode(env.classes) && ValidName(env.classes, name) && EnoughArgs(f, args)
    requires Lookup(vars, name) == Lookup(vars', name)
    ensures ThresholdExecute(env, name, f, args, vars) == ThresholdExecute(env, name, f, args, vars')
  {
    hide Lex;
    hide ParseLevel;
    hide Walk;
    hide Condition;
    ValidNameReadsItself(env, name, f, args);
    var parsed := Parse(env.classes, env.grammar, CreateMathExpression(name, f, args).value);
    if parsed.Some? {
      var tree := parsed.value;
      assert forall i | 0 <= i < |tree.varNames| :: tree.varNames[i] in tree.varNames;
      WalkIsLocal(env.lib, name, vars, vars', tree.root);
    }
  }

  /**
    A threshold reads only the variable it declares, unless that name contains a closing brace
    (which would end the variable early and let the rest of the name be parsed as an expression).
  */
  lemma ThresholdIsLocal(env: Env, name: string, f: ThresholdFunc, args: seq<real>, vars: Vars, vars': Vars)
    requires Unicode(env.classes) && '}' !in name
    requires Lookup(vars, name) == Lookup(vars', name)
    ensures ThresholdExecute(env, name, f, args, vars) == ThresholdExecute(env, name, f, args, vars')
  {
    hide Parse;
    hide Walk;
    hide Condition;
    if EnoughArgs(f, args) && ValidName(env.classes, name) {
      ValidThresholdIsLocal(env, name, f, args, vars, vars');
    } else if EnoughArgs(f, args) {
      BadNameFails(env, name, f, args);
    }
  }

  /** A name with a closing brace that compiles at all reads some variables, and never the declared one. */
  lemma BraceNameReadsOthers(env: Env, name: string, f: ThresholdFunc, args: seq<real>)
    requires !env.classes.letter('}') && !env.classes.digit('}')
    requires '}' in name && EnoughArgs(f, args)
    ensures
      var tree := Parse(env.classes, env.grammar, CreateMathExpression(name, f, args).value);
      tree.Some? ==> tree.value.varNames != [] && name !in tree.value.varNames
  {
    hide Parse;
    hide Condition;
    var text := CreateMathExpression(name, f, args).value;
    TextStartsWithName(name, f, args);
    assert text[0] == VarText(name)[0];
    if Parse(env.classes, env.grammar, text).Some? {
      VarTextMentions(env.classes, env.grammar, text);
      ParsedNamesAreBraceFree(env.classes, env.grammar, text);
    }
  }

  /** A threshold that compiles reads exactly the variable it declares if and only if that name has no closing brace. */
  lemma ReadsDeclaredIff(env: Env, name: string, f: ThresholdFunc, args: seq<real>)
    requires Unicode(env.classes) && !env.classes.letter('}') && !env.classes.digit('}') && EnoughArgs(f, args)
    ensures
      var tree := Parse(env.classes, env.grammar, CreateMathExpression(name, f, args).value);
      tree.Some? ==> ((forall v :: v in tree.value.varNames <==> v == name) <==> '}' !in name)
  {
    hide Parse;
    hide Condition;
    if '}' in name {
      BraceNameReadsOthers(env, name, f, args);
    } else if ValidName(env.classes, name) {
      ValidNameReadsItself(env, name, f, args);
    } else {
      BadNameFails(env, name, f, args);
    }
  }

  lemma SumTokens(u: Classes, x: real)
    requires Unicode(u) && ValidName(u, "A") && ValidName(u, "B")
    ensures Lex(u, VarText("A") + (" " + "+" + " " + Condition("B", ">", x))) ==
      [Token(TVar, VarText("A"))] + ([Token(TPlus, "+")] + (ConditionTokens("B", ">", Print(x)) + [Token(TEOF, "")]))
  {
    hide Lex;
    hide Print;
    var second := Condition("B", ">", x);
    SimpleTokens(u, "B", ">", x);
    LexSpacedSymbol(u, "+", second);
    LexVar(u, "A", " " + "+" + " " + second);
  }

  lemma ParseName(g: Grammar, ts: seq<Token>, pos: nat, name: string)
    requires pos < |ts| && ts[pos] == Token(TVar, VarText(name))
    ensures ParseFactor(g, ts, pos) == Done(VarNode(name), pos + 1, [name])
  {
    VarNameOfText(name);
  }

  lemma ParseOperands(g: Grammar, ts: seq<Token>)
    requires |ts| > 3 && ts[0] == Token(TVar, VarText("A")) && ts[1] == Token(TPlus, "+")
    requires ts[2] == Token(TVar, VarText("B")) && ts[3].kind == TGreater
    ensures ParseLevel(g, ts, 0, 3) == Done(BinaryNode("+", VarNode("A"), VarNode("B")), 3, ["A", "B"])
  {
    hide ParseLevel;
    hide ParseFactor;
    ParseName(g, ts, 0, "A");
    ParseName(g, ts, 2, "B");
    FactorUp(g, ts, 0, 4);
    FactorUp(g, ts, 2, 4);
    JoinLevel(g, ts, 0, 3);
    assert ["A"] + ["B"] == ["A", "B"];
  }

  /** A comparison that nothing follows is the whole expression. */
  lemma ParseWhole(g: Grammar, ts: seq<Token>, p: nat, left: Parsed, right: Parsed)
    requires left.Done? && right.Done? && ParseLevel(g, ts, 0, 3) == left && left.pos == p
    requires p < |ts| && ts[p].kind == TGreater && ParseLevel(g, ts, p + 1, 3) == right
    requires right.pos < |ts| && ts[right.pos].kind == TEOF
    ensures ParseLevel(g, ts, 0, 0) == Done(BinaryNode(ts[p].text, left.node, right.node), right.pos, left.vars + right.vars)
  {
    hide ParseLevel;
    JoinLevel(g, ts, 0, 2);
    LevelUp(g, ts, 0, 1);
    LevelUp(g, ts, 0, 0);
  }

  lemma ParseSum(g: Grammar, ts: seq<Token>, n: Numeral, v: Float)
    requires g.number(n.Unsigned()) == Some(v)
    requires ts == [Token(TVar, VarText("A"))] + ([Token(TPlus, "+")] + (ConditionTokens("B", ">", n) + [Token(TEOF, "")]))
    ensures var r := ParseLevel(g, ts, 0, 0); r.Done? && r.pos == |ts| - 1 && r.node.BinaryNode? && r.vars == ["A", "B"]
  {
    hide ParseLevel;
    hide ParseFactor;
    hide SignedTokens;
    var c := ConditionTokens("B", ">", n);
    RangeParts(ts, [Token(TVar, VarText("A"))], Token(TPlus, "+"), c);
    ConditionParts(ts, 2, "B", ">", n);
    assert |c| == |SignedTokens(n)| + 2;
    hide ConditionTokens;
    hide TokensAt;
    ParseOperands(g, ts);
    ParseOperand(g, ts, 4, n, v);
    ParseWhole(g, ts, 3, ParseLevel(g, ts, 0, 3), ParseLevel(g, ts, 4, 3));
    assert ["A", "B"] + [] == ["A", "B"];
  }

  /** Such names exist: this one compiles to a tree that reads two other variables. */
  lemma SumNameReadsOthers(env: Env, x: real)
    requires Unicode(env.classes) && Reads(env.grammar, x)
    requires ValidName(env.classes, "A") && ValidName(env.classes, "B")
    ensures
      var tree := Parse(env.classes, env.grammar, CreateMathExpression("A} + ${B", IsAbove, [x]).value);
      tree.Some? && tree.value.varNames == ["A", "B"]
  {
    hide Lex;
    hide ParseLevel;
    hide Print;
    SumText(x);
    SumTokens(env.classes, x);
    ParseSum(env.grammar, Lex(env.classes, Condition("A} + ${B", ">", x)), Print(x), BoundOf(env.grammar, x).read);
  }

  lemma SumText(x: real)
    ensures Condition("A} + ${B", ">", x) == VarText("A") + (" " + "+" + " " + Condition("B", ">", x))
  {
    hide Print;
    assert VarText("A} + ${B") == VarText("A") + " + " + VarText("B");
  }
}
