/** Texts that parse and then panic. */
module MathExamples {
  import opened Wrappers
  import opened MathValues
  import opened MathLexer
  import opened MathParser
  import opened MathCalls
  import opened MathPanics
  import opened ThresholdText
  import opened Threshold

  function SumWithCall(name: string, call: string): string
  {
    VarText(name) + (" " + "+" + " " + (call + ("(" + ")")))
  }

  function SumTokens(name: string, call: string): seq<Token>
  {
    [Token(TVar, VarText(name)), Token(TPlus, "+"), Token(TFunc, call), Token(TLeftParen, "("), Token(TRightParen, ")"),
     Token(TEOF, "")]
  }

  predicate CallName(u: Classes, call: string)
  {
    && call != ""
    && (forall i | 0 <= i < |call| :: u.letter(call[i]) && !u.digit(call[i]))
    && forall i | 0 <= i < |call| :: call[i] != '$' && call[i] != '.' && !IsSymbol(call[i])
  }

  lemma LexRightParen(u: Classes)
    requires !u.digit(')') && !u.letter(')')
    ensures Lex(u, ")") == [Token(TRightParen, ")"), Token(TEOF, "")]
  {
    assert ")"[1..] == "";
    assert Lex(u, "") == [Token(TEOF, "")];
  }

  lemma LexCall(u: Classes, call: string)
    requires Punctuation(u) && !u.digit(')') && !u.letter(')') && CallName(u, call)
    ensures Lex(u, call + ("(" + ")")) ==
      [Token(TFunc, call), Token(TLeftParen, "("), Token(TRightParen, ")"), Token(TEOF, "")]
  {
    hide Lex;
    LexRightParen(u);
    LexLeftParen(u, ")");
    LexName(u, call, "(" + ")");
  }

  lemma LexSumWithCall(u: Classes, name: string, call: string)
    requires Unicode(u) && Punctuation(u) && !u.digit(')') && !u.letter(')') && ValidName(u, name) && CallName(u, call)
    ensures Lex(u, SumWithCall(name, call)) == SumTokens(name, call)
  {
    hide Lex;
    LexCall(u, call);
    hide CallName;
    hide Punctuation;
    hide ValidName;
    hide VarText;
    var rest := call + ("(" + ")");
    LexSpacedSymbol(u, "+", rest);
    LexVar(u, name, " " + "+" + " " + rest);
  }

  lemma ParseBareCall(g: Grammar, ts: seq<Token>, pos: nat, call: string)
    requires pos + 2 < |ts| && ts[pos] == Token(TFunc, call) && call in g.funcs
    requires ts[pos + 1].kind == TLeftParen && ts[pos + 2].kind == TRightParen
    ensures ParseFactor(g, ts, pos) == Done(FuncNode(call, g.funcs[call].ret, []), pos + 3, [])
  {
    var f := g.funcs[call];
    assert ParseArgs(g, ts, pos + 2, f.variant, f.ret) == DoneArgs([], f.ret, pos + 3, []);
    hide ParseArgs;
    hide ParseLevel;
  }

  lemma ParseSumWithCall(g: Grammar, name: string, call: string)
    requires call in g.funcs
    ensures
      var r := ParseLevel(g, SumTokens(name, call), 0, 0);
      r.Done? && r.pos == 5 && r.node == BinaryNode("+", VarNode(name), FuncNode(call, g.funcs[call].ret, []))
  {
    hide ParseFactor;
    hide ParseLevel;
    var ts := SumTokens(name, call);
    ParseBareCall(g, ts, 2, call);
    ParseName(g, ts, 0, name);
    hide VarText;
    FactorUp(g, ts, 0, 4);
    FactorUp(g, ts, 2, 4);
    JoinLevel(g, ts, 0, 3);
    ParseRest(g, ts, 5);
  }

  lemma ParseRest(g: Grammar, ts: seq<Token>, pos: nat)
    requires ParseLevel(g, ts, 0, 3).Done? && ParseLevel(g, ts, 0, 3).pos == pos && KindAt(ts, pos) == TEOF
    ensures ParseLevel(g, ts, 0, 0) == ParseLevel(g, ts, 0, 3)
  {
    hide ParseLevel;
    LevelUp(g, ts, 0, 2);
    LevelUp(g, ts, 0, 1);
    LevelUp(g, ts, 0, 0);
  }

  /** `$A + abs()`: a call without its argument, below an operator, panics on all data. */
  lemma CallBelowSumPanics(u: Classes, g: Grammar, name: string, call: string)
    requires Unicode(u) && Punctuation(u) && !u.digit(')') && !u.letter(')') && ValidName(u, name) && CallName(u, call)
    requires call in g.funcs && g.funcs[call].args != []
    ensures
      var tree := Parse(u, g, SumWithCall(name, call));
      && tree.Some?
      && !UncheckedFit(g, tree.value.root)
      && forall lib, fs, refID, vars :: Eval(Machine(g, lib, fs), refID, vars, tree.value.root).Panicked?
  {
    hide Lex;
    hide ParseLevel;
    hide SumWithCall;
    LexSumWithCall(u, name, call);
    ParseSumWithCall(g, name, call);
    var left, right := VarNode(name), FuncNode(call, g.funcs[call].ret, []);
    forall lib, fs, refID, vars ensures Eval(Machine(g, lib, fs), refID, vars, BinaryNode("+", left, right)).Panicked? {
      assert Eval(Machine(g, lib, fs), refID, vars, right).Panicked?;
    }
    assert !AllFit(g, right);
  }

  // ------------------------------------------------------------ a call on NoData

  function NegatedCall(name: string, call: string): string
  {
    "-" + (call + ("(" + (VarText(name) + ")")))
  }

  function NegatedTokens(name: string, call: string): seq<Token>
  {
    [Token(TMinus, "-"), Token(TFunc, call), Token(TLeftParen, "("), Token(TVar, VarText(name)), Token(TRightParen, ")"),
     Token(TEOF, "")]
  }

  lemma LexCallOf(u: Classes, name: string, call: string)
    requires Unicode(u) && Punctuation(u) && !u.digit(')') && !u.letter(')') && ValidName(u, name) && CallName(u, call)
    ensures Lex(u, call + ("(" + (VarText(name) + ")"))) ==
      [Token(TFunc, call), Token(TLeftParen, "("), Token(TVar, VarText(name)), Token(TRightParen, ")"), Token(TEOF, "")]
  {
    hide Lex;
    LexRightParen(u);
    LexVar(u, name, ")");
    LexLeftParen(u, VarText(name) + ")");
    LexName(u, call, "(" + (VarText(name) + ")"));
  }

  lemma LexNegatedCall(u: Classes, name: string, call: string)
    requires Unicode(u) && Punctuation(u) && !u.digit(')') && !u.letter(')') && ValidName(u, name) && CallName(u, call)
    ensures Lex(u, NegatedCall(name, call)) == NegatedTokens(name, call)
  {
    hide Lex;
    LexCallOf(u, name, call);
    LexSymbol(u, "-", call + ("(" + (VarText(name) + ")")));
  }

  /** One variable as the only argument. */
  lemma ParseVarArgument(g: Grammar, ts: seq<Token>, pos: nat, name: string, ret: ReturnType)
    requires pos + 1 < |ts| && ts[pos] == Token(TVar, VarText(name)) && ts[pos + 1].kind == TRightParen
    ensures ParseArgs(g, ts, pos, true, ret) == DoneArgs([VarNode(name)], TypeSeriesSet, pos + 2, [name])
  {
    assert ParseArgs(g, ts, pos + 1, false, TypeSeriesSet) == DoneArgs([], TypeSeriesSet, pos + 2, []);
    ParseName(g, ts, pos, name);
    hide ParseFactor;
    hide VarText;
    hide VarName;
    FactorUp(g, ts, pos, 0);
    hide ParseLevel;
    assert [name] + [] == [name] && [VarNode(name)] + [] == [VarNode(name)];
  }

  lemma ParseCallOf(g: Grammar, ts: seq<Token>, pos: nat, name: string, call: string)
    requires call in g.funcs && g.funcs[call].variant && pos + 3 < |ts|
    requires ts[pos] == Token(TFunc, call) && ts[pos + 1].kind == TLeftParen
    requires ts[pos + 2] == Token(TVar, VarText(name)) && ts[pos + 3].kind == TRightParen
    ensures ParseFactor(g, ts, pos) == Done(FuncNode(call, TypeSeriesSet, [VarNode(name)]), pos + 4, [name])
  {
    hide ParseArgs;
    hide ParseLevel;
    hide VarText;
    hide VarName;
    ParseVarArgument(g, ts, pos + 2, name, g.funcs[call].ret);
  }

  lemma ParseNegatedCall(g: Grammar, name: string, call: string)
    requires call in g.funcs && g.funcs[call].variant
    ensures
      var r := ParseLevel(g, NegatedTokens(name, call), 0, 0);
      r.Done? && r.pos == 5 && r.node == UnaryNode("-", FuncNode(call, TypeSeriesSet, [VarNode(name)]))
  {
    var ts := NegatedTokens(name, call);
    ParseCallOf(g, ts, 1, name, call);
    assert ParseFactor(g, ts, 0) == Done(UnaryNode("-", FuncNode(call, TypeSeriesSet, [VarNode(name)])), 5, [name]) by {
      hide ParseLevel;
      hide ParseArgs;
      hide VarText;
    }
    hide ParseFactor;
    hide ParseLevel;
    FactorUp(g, ts, 0, 0);
  }

  /** `-abs($A)`: every call fits, and it panics when `$A` is NoData. */
  lemma NegatedCallPanics(u: Classes, g: Grammar, name: string, call: string)
    requires Unicode(u) && Punctuation(u) && !u.digit(')') && !u.letter(')') && ValidName(u, name) && CallName(u, call)
    requires call in g.funcs && g.funcs[call].args == [TypeVariantSet] && g.funcs[call].variant
    ensures
      var tree := Parse(u, g, NegatedCall(name, call));
      && tree.Some?
      && AllFit(g, tree.value.root)
      && forall lib, fs, refID, vars | Lookup(vars, name) == [NoData] ::
           Eval(Machine(g, lib, fs), refID, vars, tree.value.root).Panicked?
  {
    hide Lex;
    hide ParseLevel;
    hide NegatedCall;
    LexNegatedCall(u, name, call);
    ParseNegatedCall(g, name, call);
    var arg := VarNode(name);
    var n := FuncNode(call, TypeSeriesSet, [arg]);
    VarCallFits(g, name, call);
    forall lib, fs, refID, vars | Lookup(vars, name) == [NoData]
      ensures Eval(Machine(g, lib, fs), refID, vars, UnaryNode("-", n)).Panicked?
    {
      NilOfNoData(Machine(g, lib, fs), refID, vars, n);
    }
  }

  lemma VarCallFits(g: Grammar, name: string, call: string)
    requires call in g.funcs && g.funcs[call].args == [TypeVariantSet]
    ensures
      var n := UnaryNode("-", FuncNode(call, TypeSeriesSet, [VarNode(name)]));
      Check(g, n) && AllFit(g, n) && Fits(g, call, [VarNode(name)])
  {
    var arg := VarNode(name);
    assert Check(g, arg) && AllFit(g, arg);
    assert Fits(g, call, [arg]);
    assert Check(g, FuncNode(call, TypeSeriesSet, [arg])) && AllFit(g, FuncNode(call, TypeSeriesSet, [arg]));
  }

  lemma NilOfNoData(m: Machine, refID: string, vars: Vars, n: Node)
    requires n.FuncNode? && |n.args| == 1 && n.args[0].VarNode? && Fits(m.g, n.name, n.args)
    requires Lookup(vars, n.args[0].name) == [NoData]
    ensures Eval(m, refID, vars, n) == Computed([None])
    ensures UnaryCells(refID, "-", [None]).Panicked?
  {
    assert n.args[1..] == [] && EvalArgs(m, refID, vars, []) == ArgsComputed([]);
    assert Plain([NoData]) == [Some(NoData)];
    assert EvalArgs(m, refID, vars, n.args) == ArgsComputed([[Some(NoData)]]);
    ApplyTwo(m.fs, n.name, refID, Some(NoData), None);
    UnaryTwo(refID, "-", None, None);
  }
}
