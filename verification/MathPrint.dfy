/**
  Which tree a text means: printing a tree with as few parentheses as its operators' tightness
  allows, and parsing the text, gives the tree back.
*/
module MathPrint {
  import opened Wrappers
  import opened MathValues
  import opened MathLexer
  import opened MathParser
  import opened ThresholdText

  /** How numbers and strings are written; the reader has to read them back. */
  datatype Printer = Printer(numeral: Float -> Numeral, quote: string -> string)

  /** How tightly an operator binds, from "||" to "**"; what is no operator binds tightest. */
  function Tightness(op: string): nat
  {
    if op == "||" then 0
    else if op == "&&" then 1
    else if op == "==" || op == "!=" || op == ">" || op == ">=" || op == "<" || op == "<=" then 2
    else if op == "+" || op == "-" then 3
    else if op == "*" || op == "/" || op == "%" then 4
    else if op == "**" then 5
    else 6
  }

  function Binding(n: Node): nat
  {
    if n.BinaryNode? then Tightness(n.op) else 6
  }

  const LEFT := Token(TLeftParen, "(")
  const RIGHT := Token(TRightParen, ")")

  function Op(op: string): Token
  {
    Token(SymbolKind(op), op)
  }

  function Quoted(pr: Printer, s: string): string
  {
    "\"" + pr.quote(s) + "\""
  }

  function Wrap(ts: seq<Token>): seq<Token>
  {
    [LEFT] + (ts + [RIGHT])
  }

  function Tokens(pr: Printer, n: Node): seq<Token>
    decreases n, 0
  {
    match n
    case ScalarNode(v) => [Token(TNumber, pr.numeral(v).Unsigned())]
    case StringNode(s) => [Token(TString, Quoted(pr, s))]
    case VarNode(name) => [Token(TVar, VarText(name))]
    case UnaryNode(op, a) => [Op(op)] + At(pr, a, 6)
    case BinaryNode(op, a, b) => At(pr, a, Tightness(op)) + ([Op(op)] + At(pr, b, Tightness(op) + 1))
    case FuncNode(name, _, args) => [Token(TFunc, name), LEFT] + (ArgTokens(pr, args, |args| == 1) + [RIGHT])
  }

  /** Parentheses around what binds looser than its place asks for; operators group to the left. */
  function At(pr: Printer, n: Node, level: nat): seq<Token>
    decreases n, 1
  {
    if Binding(n) < level then Wrap(Tokens(pr, n)) else Tokens(pr, n)
  }

  /** One argument stands alone; of several, every one that is not a string is in parentheses. */
  function ArgTokens(pr: Printer, args: seq<Node>, alone: bool): seq<Token>
    decreases args, 0
  {
    if args == [] then []
    else
      ArgPart(pr, args[0], alone) + ArgTokens(pr, args[1..], alone)
  }

  function ArgPart(pr: Printer, arg: Node, alone: bool): seq<Token>
    decreases arg, 1
  {
    if alone || arg.StringNode? then Tokens(pr, arg) else Wrap(Tokens(pr, arg))
  }

  /** The tokens' texts, a space after each. */
  function Text(ts: seq<Token>): string
  {
    if ts == [] then "" else ts[0].text + (" " + Text(ts[1..]))
  }

  predicate Word(u: Classes, name: string)
  {
    && name != "" && u.letter(name[0]) && !u.digit(name[0])
    && name[0] != '$' && name[0] != '.' && !IsSymbol(name[0])
    && forall i | 0 <= i < |name| :: u.letter(name[i]) || name[i] == '_'
  }

  /** The type of a call: that of its first argument if the function takes its type from there. */
  function CallType(f: Func, args: seq<Node>): ReturnType
  {
    if f.variant && args != [] && !args[0].StringNode? then Return(args[0]) else f.ret
  }

  predicate PrintableString(g: Grammar, pr: Printer, s: string)
  {
    g.unquote(Quoted(pr, s)) == Some(s) && '"' !in pr.quote(s)
  }

  /** What a text can say: lexable names, known operators and functions, readable numbers. */
  predicate Printable(u: Classes, g: Grammar, pr: Printer, n: Node)
  {
    match n
    case ScalarNode(v) => pr.numeral(v).Valid() && g.number(pr.numeral(v).Unsigned()) == Some(v)
    case StringNode(_) => false
    case VarNode(name) => ValidName(u, name)
    case UnaryNode(op, a) => (op == "!" || op == "-") && Printable(u, g, pr, a)
    case BinaryNode(op, a, b) => Tightness(op) < 6 && Printable(u, g, pr, a) && Printable(u, g, pr, b)
    case FuncNode(name, ret, args) =>
      && Word(u, name) && name in g.funcs && ret == CallType(g.funcs[name], args)
      && forall i | 0 <= i < |args| ::
           if args[i].StringNode? then PrintableString(g, pr, args[i].text) else Printable(u, g, pr, args[i])
  }

  predicate PrintableArgs(u: Classes, g: Grammar, pr: Printer, args: seq<Node>)
  {
    forall i | 0 <= i < |args| ::
      if args[i].StringNode? then PrintableString(g, pr, args[i].text) else Printable(u, g, pr, args[i])
  }

  // ------------------------------------------------------------- tokens to tree

  lemma OperatorLevel(op: string)
    requires Tightness(op) < 6
    ensures SymbolKind(op) in OpsAt(Tightness(op))
    ensures forall l: nat | l < 6 && l != Tightness(op) :: SymbolKind(op) !in OpsAt(l)
  {
  }

  lemma EndsAtOperator(ts: seq<Token>, q: nat, op: string, t: nat)
    requires q < |ts| && ts[q] == Op(op) && Tightness(op) == t < 6
    ensures Ends(ts, q, t + 1) && KindAt(ts, q) in OpsAt(t)
  {
    OperatorLevel(op);
    hide SymbolKind;
  }

  lemma EndsAtOther(ts: seq<Token>, q: nat)
    requires KindAt(ts, q) in {TEOF, TLeftParen, TRightParen, TString}
    ensures forall level: nat :: Ends(ts, q, level)
  {
    forall level: nat ensures Ends(ts, q, level) {
      forall l | level <= l < 6 ensures KindAt(ts, q) !in OpsAt(l) {
      }
    }
  }

  /** The rest of a level, with the names seen so far put in front. */
  function Extended(vars: seq<string>, r: Parsed): Parsed
  {
    if r.Fail? then Fail else Done(r.node, r.pos, vars + r.vars)
  }

  lemma TokensSplit(ts: seq<Token>, pos: nat, a: seq<Token>, b: seq<Token>)
    requires TokensAt(ts, pos, a + b)
    ensures TokensAt(ts, pos, a) && TokensAt(ts, pos + |a|, b)
  {
    assert (a + b)[..|a|] == a && (a + b)[|a|..] == b;
    assert ts[pos..pos + |a|] == ts[pos..pos + |a + b|][..|a|];
    assert ts[pos + |a|..pos + |a| + |b|] == ts[pos..pos + |a + b|][|a|..];
  }

  lemma TokenHere(ts: seq<Token>, pos: nat, t: Token)
    requires TokensAt(ts, pos, [t])
    ensures pos < |ts| && ts[pos] == t
  {
    assert ts[pos..pos + 1][0] == [t][0];
  }

  lemma WrapSplit(ts: seq<Token>, pos: nat, part: seq<Token>)
    requires TokensAt(ts, pos, Wrap(part))
    ensures pos < |ts| && ts[pos] == LEFT && TokensAt(ts, pos + 1, part)
    ensures var q := pos + 1 + |part|; q < |ts| && ts[q] == RIGHT
  {
    TokensSplit(ts, pos, [LEFT], part + [RIGHT]);
    TokenHere(ts, pos, LEFT);
    TokensSplit(ts, pos + 1, part, [RIGHT]);
    TokenHere(ts, pos + 1 + |part|, RIGHT);
  }

  /** Parentheses around what parses from the loosest level on are a factor. */
  lemma WrapParses(g: Grammar, ts: seq<Token>, pos: nat, part: seq<Token>, n: Node, vars: seq<string>)
    requires TokensAt(ts, pos, Wrap(part)) && ParseLevel(g, ts, pos + 1, 0) == Done(n, pos + 1 + |part|, vars)
    ensures ParseFactor(g, ts, pos) == Done(n, pos + |Wrap(part)|, vars)
  {
    WrapSplit(ts, pos, part);
    hide ParseLevel;
  }

  lemma {:induction false} ParseAt(u: Classes, g: Grammar, pr: Printer, n: Node, ts: seq<Token>, pos: nat, level: nat)
    requires Printable(u, g, pr, n) && level <= 6 && TokensAt(ts, pos, At(pr, n, level))
    requires Ends(ts, pos + |At(pr, n, level)|, level)
    ensures ParseLevel(g, ts, pos, level) == Done(n, pos + |At(pr, n, level)|, VarsOf(n))
    decreases n, if level > Binding(n) then 1 else 0, 6 - level, 4
  {
    hide Tokens;
    hide Printable;
    hide ParseFactor;
    var q := pos + |At(pr, n, level)|;
    if level == 6 {
      ParseFactorAt(u, g, pr, n, ts, pos);
    } else if Binding(n) == level {
      Spine(u, g, pr, n, ts, pos, level);
      assert KindAt(ts, q) !in OpsAt(level);
      assert ParseMore(g, ts, q, level, n) == Done(n, q, []);
      hide ParseLevel;
      hide ParseMore;
      assert VarsOf(n) + [] == VarsOf(n);
    } else {
      assert Ends(ts, q, level + 1);
      ParseAt(u, g, pr, n, ts, pos, level + 1);
      assert KindAt(ts, q) !in OpsAt(level);
      LevelUp(g, ts, pos, level);
    }
  }

  /** Parsing a level takes the printed tree and goes on with it as the left operand. */
  lemma {:induction false} Spine(u: Classes, g: Grammar, pr: Printer, n: Node, ts: seq<Token>, pos: nat, t: nat)
    requires Printable(u, g, pr, n) && t < 6 && TokensAt(ts, pos, At(pr, n, t))
    requires Ends(ts, pos + |At(pr, n, t)|, t + 1)
    ensures ParseLevel(g, ts, pos, t) == Extended(VarsOf(n), ParseMore(g, ts, pos + |At(pr, n, t)|, t, n))
    decreases n, if t > Binding(n) then 1 else 0, 6 - t, 0
  {
    if Binding(n) != t {
      hide Tokens;
      hide Printable;
      hide ParseMore;
      ParseAt(u, g, pr, n, ts, pos, t + 1);
    } else {
      SpineBinary(u, g, pr, n, ts, pos, t);
    }
  }

  lemma {:induction false} SpineBinary(u: Classes, g: Grammar, pr: Printer, n: Node, ts: seq<Token>, pos: nat, t: nat)
    requires n.BinaryNode? && Tightness(n.op) == t < 6 && Printable(u, g, pr, n) && TokensAt(ts, pos, At(pr, n, t))
    requires Ends(ts, pos + |At(pr, n, t)|, t + 1)
    ensures ParseLevel(g, ts, pos, t) == Extended(VarsOf(n), ParseMore(g, ts, pos + |At(pr, n, t)|, t, n))
    decreases n, 0, 0, 0
  {
    hide *;
    var left, right := At(pr, n.left, t), At(pr, n.right, t + 1);
    var q := pos + |left|;
    BinaryParts(u, g, pr, n, ts, pos, t);
    Spine(u, g, pr, n.left, ts, pos, t);
    ParseAt(u, g, pr, n.right, ts, q + 1, t + 1);
    SpineStep(g, ts, pos, q, t, n.op, n.left, n.right, q + 1 + |right|, VarsOf(n.left), VarsOf(n.right));
  }

  lemma BinaryParts(u: Classes, g: Grammar, pr: Printer, n: Node, ts: seq<Token>, pos: nat, t: nat)
    requires n.BinaryNode? && Tightness(n.op) == t < 6 && Printable(u, g, pr, n) && TokensAt(ts, pos, At(pr, n, t))
    ensures
      var left, right := At(pr, n.left, t), At(pr, n.right, t + 1);
      var q := pos + |left|;
      && TokensAt(ts, pos, left) && TokensAt(ts, q + 1, right) && |At(pr, n, t)| == |left| + 1 + |right|
      && q + 1 + |right| <= |ts|
      && Ends(ts, q, t + 1) && ts[q].kind in OpsAt(t) && ts[q].text == n.op
    ensures Printable(u, g, pr, n.left) && Printable(u, g, pr, n.right)
    ensures n == BinaryNode(n.op, n.left, n.right) && VarsOf(n) == VarsOf(n.left) + VarsOf(n.right)
  {
    var left, right := At(pr, n.left, t), At(pr, n.right, t + 1);
    assert At(pr, n, t) == left + ([Op(n.op)] + right);
    OperandsPrintable(u, g, pr, n);
    hide Printable;
    hide At;
    hide Tokens;
    TokensSplit(ts, pos, left, [Op(n.op)] + right);
    TokensSplit(ts, pos + |left|, [Op(n.op)], right);
    TokenHere(ts, pos + |left|, Op(n.op));
    EndsAtOperator(ts, pos + |left|, n.op, t);
    hide SymbolKind;
    hide Ends;
  }

  lemma OperandsPrintable(u: Classes, g: Grammar, pr: Printer, n: Node)
    requires n.BinaryNode? && Printable(u, g, pr, n)
    ensures Printable(u, g, pr, n.left) && Printable(u, g, pr, n.right)
  {
  }

  /** One more operator and operand on the spine. */
  lemma SpineStep(g: Grammar, ts: seq<Token>, pos: nat, q: nat, t: nat, op: string, left: Node, right: Node, end: nat,
                  vl: seq<string>, vr: seq<string>)
    requires t < 6 && q < |ts| && end <= |ts| && ts[q].kind in OpsAt(t) && ts[q].text == op
    requires ParseLevel(g, ts, pos, t) == Extended(vl, ParseMore(g, ts, q, t, left))
    requires ParseLevel(g, ts, q + 1, t + 1) == Done(right, end, vr)
    ensures ParseLevel(g, ts, pos, t) == Extended(vl + vr, ParseMore(g, ts, end, t, BinaryNode(op, left, right)))
  {
    hide ParseLevel;
    hide OpsAt;
    var r := ParseMore(g, ts, end, t, BinaryNode(op, left, right));
    assert ParseMore(g, ts, q, t, left) == Extended(vr, r);
    if r.Done? {
      assert vl + (vr + r.vars) == vl + vr + r.vars;
    }
  }

  lemma {:induction false} ParseFactorAt(u: Classes, g: Grammar, pr: Printer, n: Node, ts: seq<Token>, pos: nat)
    requires Printable(u, g, pr, n) && TokensAt(ts, pos, At(pr, n, 6))
    ensures ParseFactor(g, ts, pos) == Done(n, pos + |At(pr, n, 6)|, VarsOf(n))
    decreases n, if Binding(n) < 6 then 1 else 0, 0, 3
  {
    if Binding(n) < 6 {
      hide ParseFactor;
      WrapSplit(ts, pos, Tokens(pr, n));
      EndsAtOther(ts, pos + 1 + |Tokens(pr, n)|);
      hide Tokens;
      hide Printable;
      assert At(pr, n, 0) == Tokens(pr, n);
      ParseAt(u, g, pr, n, ts, pos + 1, 0);
      WrapParses(g, ts, pos, Tokens(pr, n), n, VarsOf(n));
    } else {
      ParseAtom(u, g, pr, n, ts, pos);
    }
  }

  lemma {:induction false} ParseAtom(u: Classes, g: Grammar, pr: Printer, n: Node, ts: seq<Token>, pos: nat)
    requires Printable(u, g, pr, n) && Binding(n) == 6 && TokensAt(ts, pos, Tokens(pr, n))
    ensures ParseFactor(g, ts, pos) == Done(n, pos + |Tokens(pr, n)|, VarsOf(n))
    decreases n, 0, 0, 2
  {
    match n {
      case ScalarNode(_) => ParseLeaf(u, g, pr, n, ts, pos);
      case VarNode(_) => ParseLeaf(u, g, pr, n, ts, pos);
      case UnaryNode(_, _) => ParseNegation(u, g, pr, n, ts, pos);
      case FuncNode(_, _, _) => ParseCall(u, g, pr, n, ts, pos);
    }
  }

  lemma ParseLeaf(u: Classes, g: Grammar, pr: Printer, n: Node, ts: seq<Token>, pos: nat)
    requires (n.ScalarNode? || n.VarNode?) && Printable(u, g, pr, n) && TokensAt(ts, pos, Tokens(pr, n))
    ensures ParseFactor(g, ts, pos) == Done(n, pos + |Tokens(pr, n)|, VarsOf(n))
  {
    hide ParseLevel;
    hide ParseArgs;
    if n.ScalarNode? {
      TokenHere(ts, pos, Token(TNumber, pr.numeral(n.value).Unsigned()));
    } else {
      TokenHere(ts, pos, Token(TVar, VarText(n.name)));
      VarNameOfText(n.name);
      hide VarName;
    }
  }

  lemma {:induction false} ParseNegation(u: Classes, g: Grammar, pr: Printer, n: Node, ts: seq<Token>, pos: nat)
    requires n.UnaryNode? && Printable(u, g, pr, n) && TokensAt(ts, pos, Tokens(pr, n))
    ensures ParseFactor(g, ts, pos) == Done(n, pos + |Tokens(pr, n)|, VarsOf(n))
    decreases n, 0, 0, 1
  {
    var part := At(pr, n.arg, 6);
    assert Tokens(pr, n) == [Op(n.op)] + part;
    TokensSplit(ts, pos, [Op(n.op)], part);
    TokenHere(ts, pos, Op(n.op));
    assert SymbolKind(n.op) in {TNot, TMinus};
    hide SymbolKind;
    hide ParseFactor;
    hide At;
    ParseFactorAt(u, g, pr, n.arg, ts, pos + 1);
    assert ParseUnary(g, ts, pos) == Done(n, pos + 1 + |part|, VarsOf(n));
    NegationIsUnary(g, ts, pos);
  }

  lemma NegationIsUnary(g: Grammar, ts: seq<Token>, pos: nat)
    requires pos < |ts| && ts[pos].kind in {TNot, TMinus}
    ensures ParseFactor(g, ts, pos) == ParseUnary(g, ts, pos)
  {
    hide ParseUnary;
  }

  lemma {:induction false} ParseCall(u: Classes, g: Grammar, pr: Printer, n: Node, ts: seq<Token>, pos: nat)
    requires n.FuncNode? && Printable(u, g, pr, n) && TokensAt(ts, pos, Tokens(pr, n))
    ensures ParseFactor(g, ts, pos) == Done(n, pos + |Tokens(pr, n)|, VarsOf(n))
    decreases n, 0, 0, 1
  {
    var f, args, alone := g.funcs[n.name], n.args, |n.args| == 1;
    var part := ArgTokens(pr, args, alone);
    assert Tokens(pr, n) == [Token(TFunc, n.name)] + ([LEFT] + (part + [RIGHT]));
    assert PrintableArgs(u, g, pr, args);
    assert n.ret == CallType(f, args);
    hide Tokens;
    hide ArgTokens;
    hide Printable;
    hide PrintableArgs;
    hide ParseArgs;
    hide ParseFactor;
    CallSplit(ts, pos, n.name, part);
    ParseArgsAt(u, g, pr, args, alone, ts, pos + 2, f.variant, f.ret);
    CallParses(g, ts, pos, n.name, args, n.ret, pos + 2 + |part| + 1, VarsOfAll(args));
  }

  lemma CallSplit(ts: seq<Token>, pos: nat, name: string, part: seq<Token>)
    requires TokensAt(ts, pos, [Token(TFunc, name)] + ([LEFT] + (part + [RIGHT])))
    ensures pos + 1 < |ts| && ts[pos] == Token(TFunc, name) && ts[pos + 1] == LEFT && TokensAt(ts, pos + 2, part)
    ensures var q := pos + 2 + |part|; q < |ts| && ts[q] == RIGHT
  {
    TokensSplit(ts, pos, [Token(TFunc, name)], [LEFT] + (part + [RIGHT]));
    TokenHere(ts, pos, Token(TFunc, name));
    TokensSplit(ts, pos + 1, [LEFT], part + [RIGHT]);
    TokenHere(ts, pos + 1, LEFT);
    TokensSplit(ts, pos + 2, part, [RIGHT]);
    TokenHere(ts, pos + 2 + |part|, RIGHT);
  }

  lemma CallParses(g: Grammar, ts: seq<Token>, pos: nat, name: string, args: seq<Node>, ret: ReturnType, end: nat, vars: seq<string>)
    requires pos + 1 < |ts| && ts[pos] == Token(TFunc, name) && ts[pos + 1] == LEFT && name in g.funcs
    requires ParseArgs(g, ts, pos + 2, g.funcs[name].variant, g.funcs[name].ret) == DoneArgs(args, ret, end, vars)
    ensures ParseFactor(g, ts, pos) == Done(FuncNode(name, ret, args), end, vars)
  {
    hide ParseArgs;
    hide ParseLevel;
  }

  lemma {:induction false} ParseArgsAt(u: Classes, g: Grammar, pr: Printer, args: seq<Node>, alone: bool,
                                       ts: seq<Token>, pos: nat, variant: bool, ret: ReturnType)
    requires PrintableArgs(u, g, pr, args) && (alone ==> |args| <= 1)
    requires TokensAt(ts, pos, ArgTokens(pr, args, alone))
    requires var q := pos + |ArgTokens(pr, args, alone)|; q < |ts| && ts[q] == RIGHT
    ensures
      var type' := if variant && args != [] && !args[0].StringNode? then Return(args[0]) else ret;
      ParseArgs(g, ts, pos, variant, ret) == DoneArgs(args, type', pos + |ArgTokens(pr, args, alone)| + 1, VarsOfAll(args))
    decreases args, 1, 0, 0
  {
    hide *;
    if args == [] {
      NoArguments(g, pr, alone, ts, pos, variant, ret);
    } else {
      FirstArgument(u, g, pr, args, alone);
      TokensSplit(ts, pos, ArgPart(pr, args[0], alone), ArgTokens(pr, args[1..], alone));
      if args[0].StringNode? {
        ParseStringFirst(u, g, pr, args, alone, ts, pos, variant, ret);
      } else {
        ParseNodeFirst(u, g, pr, args, alone, ts, pos, variant, ret);
      }
    }
  }

  lemma {:induction false} ParseStringFirst(u: Classes, g: Grammar, pr: Printer, args: seq<Node>, alone: bool,
                                            ts: seq<Token>, pos: nat, variant: bool, ret: ReturnType)
    requires args != [] && args[0].StringNode? && PrintableString(g, pr, args[0].text)
    requires PrintableArgs(u, g, pr, args[1..]) && (alone ==> |args| == 1)
    requires var part := ArgPart(pr, args[0], alone);
      TokensAt(ts, pos, part) && TokensAt(ts, pos + |part|, ArgTokens(pr, args[1..], alone))
    requires var q := pos + |ArgPart(pr, args[0], alone)| + |ArgTokens(pr, args[1..], alone)|; q < |ts| && ts[q] == RIGHT
    ensures ParseArgs(g, ts, pos, variant, ret) ==
      DoneArgs(args, ret, pos + |ArgPart(pr, args[0], alone)| + |ArgTokens(pr, args[1..], alone)| + 1, VarsOfAll(args))
    decreases args, 0, 0, 0
  {
    hide *;
    StringPart(pr, args[0], alone);
    TokenHere(ts, pos, Token(TString, Quoted(pr, args[0].text)));
    StringReads(g, pr, args[0].text);
    ParseArgsAt(u, g, pr, args[1..], alone, ts, pos + 1, false, ret);
    StringFirst(g, ts, pos, variant, ret, args, pos + 1 + |ArgTokens(pr, args[1..], alone)| + 1);
  }

  lemma {:induction false} ParseNodeFirst(u: Classes, g: Grammar, pr: Printer, args: seq<Node>, alone: bool,
                                          ts: seq<Token>, pos: nat, variant: bool, ret: ReturnType)
    requires args != [] && !args[0].StringNode? && Printable(u, g, pr, args[0])
    requires PrintableArgs(u, g, pr, args[1..]) && (alone ==> |args| == 1)
    requires var part := ArgPart(pr, args[0], alone);
      TokensAt(ts, pos, part) && TokensAt(ts, pos + |part|, ArgTokens(pr, args[1..], alone))
    requires var q := pos + |ArgPart(pr, args[0], alone)| + |ArgTokens(pr, args[1..], alone)|; q < |ts| && ts[q] == RIGHT
    ensures ParseArgs(g, ts, pos, variant, ret) ==
      DoneArgs(args, if variant then Return(args[0]) else ret,
               pos + |ArgPart(pr, args[0], alone)| + |ArgTokens(pr, args[1..], alone)| + 1, VarsOfAll(args))
    decreases args, 0, 0, 0
  {
    hide *;
    var next := pos + |ArgPart(pr, args[0], alone)|;
    var ret' := if variant then Return(args[0]) else ret;
    AfterArgument(u, g, pr, args[1..], alone, ts, next);
    ParseArgument(u, g, pr, args[0], alone, ts, pos);
    ParseArgsAt(u, g, pr, args[1..], alone, ts, next, false, ret');
    NodeFirst(g, ts, pos, variant, ret, args, next, next + |ArgTokens(pr, args[1..], alone)| + 1);
  }

  lemma NoArguments(g: Grammar, pr: Printer, alone: bool, ts: seq<Token>, pos: nat, variant: bool, ret: ReturnType)
    requires var q := pos + |ArgTokens(pr, [], alone)|; q < |ts| && ts[q] == RIGHT
    ensures ArgTokens(pr, [], alone) == [] && ParseArgs(g, ts, pos, variant, ret) == DoneArgs([], ret, pos + 1, VarsOfAll([]))
  {
    hide ParseLevel;
  }

  lemma FirstArgument(u: Classes, g: Grammar, pr: Printer, args: seq<Node>, alone: bool)
    requires args != [] && PrintableArgs(u, g, pr, args)
    ensures ArgTokens(pr, args, alone) == ArgPart(pr, args[0], alone) + ArgTokens(pr, args[1..], alone)
    ensures PrintableArgs(u, g, pr, args[1..])
    ensures if args[0].StringNode? then PrintableString(g, pr, args[0].text) else Printable(u, g, pr, args[0])
  {
    hide Printable;
    hide PrintableString;
    hide ArgPart;
  }

  lemma StringReads(g: Grammar, pr: Printer, s: string)
    requires PrintableString(g, pr, s)
    ensures g.unquote(Quoted(pr, s)) == Some(s)
  {
  }

  lemma StringPart(pr: Printer, arg: Node, alone: bool)
    requires arg.StringNode?
    ensures ArgPart(pr, arg, alone) == [Token(TString, Quoted(pr, arg.text))]
  {
  }

  lemma StringFirst(g: Grammar, ts: seq<Token>, pos: nat, variant: bool, ret: ReturnType, args: seq<Node>, end: nat)
    requires args != [] && args[0].StringNode? && pos < |ts| && ts[pos].kind == TString
    requires g.unquote(ts[pos].text) == Some(args[0].text)
    requires ParseArgs(g, ts, pos + 1, false, ret) == DoneArgs(args[1..], ret, end, VarsOfAll(args[1..]))
    ensures ParseArgs(g, ts, pos, variant, ret) == DoneArgs(args, ret, end, VarsOfAll(args))
  {
    assert args == [args[0]] + args[1..];
    assert VarsOfAll(args) == VarsOf(args[0]) + VarsOfAll(args[1..]);
  }

  lemma NodeFirst(g: Grammar, ts: seq<Token>, pos: nat, variant: bool, ret: ReturnType, args: seq<Node>, next: nat, end: nat)
    requires args != [] && pos < |ts| && next <= |ts| && ts[pos].kind !in {TRightParen, TString}
    requires ParseLevel(g, ts, pos, 0) == Done(args[0], next, VarsOf(args[0]))
    requires
      var ret' := if variant then Return(args[0]) else ret;
      ParseArgs(g, ts, next, false, ret') == DoneArgs(args[1..], ret', end, VarsOfAll(args[1..]))
    ensures ParseArgs(g, ts, pos, variant, ret) ==
      DoneArgs(args, if variant then Return(args[0]) else ret, end, VarsOfAll(args))
  {
    hide ParseLevel;
    assert args == [args[0]] + args[1..];
    assert VarsOfAll(args) == VarsOf(args[0]) + VarsOfAll(args[1..]);
  }

  /** After an argument comes another one or the closing parenthesis, never an operator. */
  lemma AfterArgument(u: Classes, g: Grammar, pr: Printer, args: seq<Node>, alone: bool, ts: seq<Token>, pos: nat)
    requires PrintableArgs(u, g, pr, args) && (alone ==> args == []) && TokensAt(ts, pos, ArgTokens(pr, args, alone))
    requires var q := pos + |ArgTokens(pr, args, alone)|; q < |ts| && ts[q] == RIGHT
    ensures KindAt(ts, pos) in {TLeftParen, TRightParen, TString}
  {
    if args != [] {
      var first := ArgPart(pr, args[0], alone);
      TokensSplit(ts, pos, first, ArgTokens(pr, args[1..], alone));
      if args[0].StringNode? {
        StringPart(pr, args[0], alone);
        TokenHere(ts, pos, Token(TString, Quoted(pr, args[0].text)));
      } else {
        WrapSplit(ts, pos, Tokens(pr, args[0]));
      }
    }
  }

  lemma {:induction false} ParseArgument(u: Classes, g: Grammar, pr: Printer, arg: Node, alone: bool, ts: seq<Token>, pos: nat)
    requires !arg.StringNode? && Printable(u, g, pr, arg) && TokensAt(ts, pos, ArgPart(pr, arg, alone))
    requires KindAt(ts, pos + |ArgPart(pr, arg, alone)|) in {TLeftParen, TRightParen, TString}
    ensures ParseLevel(g, ts, pos, 0) == Done(arg, pos + |ArgPart(pr, arg, alone)|, VarsOf(arg))
    ensures pos < |ts| && ts[pos].kind !in {TRightParen, TString}
    decreases arg, 2, 0, 0
  {
    hide Tokens;
    hide Printable;
    hide ParseLevel;
    hide ParseFactor;
    EndsAtOther(ts, pos + |ArgPart(pr, arg, alone)|);
    hide Ends;
    assert At(pr, arg, 0) == Tokens(pr, arg);
    hide At;
    if alone {
      ParseAt(u, g, pr, arg, ts, pos, 0);
    } else {
      WrapSplit(ts, pos, Tokens(pr, arg));
      EndsAtOther(ts, pos + 1 + |Tokens(pr, arg)|);
      ParseAt(u, g, pr, arg, ts, pos + 1, 0);
      WrapParses(g, ts, pos, Tokens(pr, arg), arg, VarsOf(arg));
      FactorUp(g, ts, pos, 0);
    }
    StartsSomewhere(g, ts, pos);
  }

  /** What parses does not start with a closing parenthesis or a string. */
  lemma StartsSomewhere(g: Grammar, ts: seq<Token>, pos: nat)
    requires ParseLevel(g, ts, pos, 0).Done?
    ensures pos < |ts| && ts[pos].kind !in {TRightParen, TString}
  {
    if ParseFactor(g, ts, pos).Fail? {
      FailUp(g, ts, pos, 0);
    }
  }

  // ------------------------------------------------------------- text to tokens

  /** The syntax characters that are neither digits nor letters. */
  ghost predicate Syntax(u: Classes)
  {
    Unicode(u) && Punctuation(u) && !u.digit(')') && !u.letter(')') && !u.digit('"') && !u.letter('"')
  }

  /** Before a space, the token is read as itself. */
  ghost predicate Lexable(u: Classes, t: Token)
  {
    forall rest: string :: Lex(u, t.text + (" " + rest)) == [t] + Lex(u, " " + rest)
  }

  ghost predicate AllLexable(u: Classes, ts: seq<Token>)
  {
    forall i | 0 <= i < |ts| :: Lexable(u, ts[i])
  }

  lemma LexableConcat(u: Classes, a: seq<Token>, b: seq<Token>)
    requires AllLexable(u, a) && AllLexable(u, b)
    ensures AllLexable(u, a + b)
  {
    hide Lexable;
  }

  lemma LexableOne(u: Classes, t: Token)
    requires Lexable(u, t)
    ensures AllLexable(u, [t])
  {
    hide Lexable;
  }

  lemma {:induction false} LexText(u: Classes, ts: seq<Token>)
    requires Unicode(u) && AllLexable(u, ts)
    ensures Lex(u, Text(ts)) == ts + [Token(TEOF, "")]
  {
    if ts == [] {
    } else {
      hide Lex;
      LexText(u, ts[1..]);
      assert Lexable(u, ts[0]);
      LexSpace(u, Text(ts[1..]));
      assert ts == [ts[0]] + ts[1..];
    }
  }

  lemma LexableParens(u: Classes)
    requires Syntax(u)
    ensures Lexable(u, LEFT) && Lexable(u, RIGHT)
  {
    forall rest: string
      ensures Lex(u, "(" + (" " + rest)) == [LEFT] + Lex(u, " " + rest)
      ensures Lex(u, ")" + (" " + rest)) == [RIGHT] + Lex(u, " " + rest)
    {
      LexLeftParen(u, " " + rest);
      LexRight(u, " " + rest);
    }
  }

  lemma LexRight(u: Classes, rest: string)
    requires Syntax(u)
    ensures Lex(u, ")" + rest) == [RIGHT] + Lex(u, rest)
  {
    assert (")" + rest)[1..] == rest;
  }

  lemma LexableOp(u: Classes, op: string)
    requires Unicode(u) && (Tightness(op) < 6 || op == "!")
    ensures Lexable(u, Op(op))
  {
    assert op != "" && forall i | 0 <= i < |op| :: IsSymbol(op[i]);
    hide Tightness;
    forall rest: string ensures Lex(u, op + (" " + rest)) == [Op(op)] + Lex(u, " " + rest) {
      LexSymbol(u, op, " " + rest);
    }
  }

  lemma LexableVar(u: Classes, name: string)
    requires ValidName(u, name)
    ensures Lexable(u, Token(TVar, VarText(name)))
  {
    forall rest: string ensures Lex(u, VarText(name) + (" " + rest)) == [Token(TVar, VarText(name))] + Lex(u, " " + rest) {
      LexVar(u, name, " " + rest);
    }
  }

  lemma LexableNumber(u: Classes, n: Numeral)
    requires Unicode(u) && n.Valid()
    ensures Lexable(u, Token(TNumber, n.Unsigned()))
  {
    forall rest: string ensures Lex(u, n.Unsigned() + (" " + rest)) == [Token(TNumber, n.Unsigned())] + Lex(u, " " + rest) {
      LexDecimal(u, n, " " + rest);
    }
  }

  lemma LexableName(u: Classes, name: string)
    requires Unicode(u) && Word(u, name)
    ensures Lexable(u, Token(TFunc, name))
  {
    forall rest: string ensures Lex(u, name + (" " + rest)) == [Token(TFunc, name)] + Lex(u, " " + rest) {
      LexName(u, name, " " + rest);
    }
  }

  lemma LexableString(u: Classes, g: Grammar, pr: Printer, s: string)
    requires Syntax(u) && PrintableString(g, pr, s)
    ensures Lexable(u, Token(TString, Quoted(pr, s)))
  {
    forall rest: string ensures Lex(u, Quoted(pr, s) + (" " + rest)) == [Token(TString, Quoted(pr, s))] + Lex(u, " " + rest) {
      LexQuoted(u, pr.quote(s), " " + rest);
    }
  }

  lemma LexQuoted(u: Classes, body: string, rest: string)
    requires Syntax(u) && '"' !in body
    ensures var quoted := "\"" + body + "\""; Lex(u, quoted + rest) == [Token(TString, quoted)] + Lex(u, rest)
  {
    var quoted := "\"" + body + "\"";
    var text := quoted + rest;
    assert text[1..] == body + ("\"" + rest);
    RunExact(c => c != '"', body, "\"" + rest);
    assert ScanString(text[1..]) == |body|;
    assert text[..|body| + 2] == quoted && text[|body| + 2..] == rest;
    hide ScanString;
  }

  lemma {:induction false} TokensLexable(u: Classes, g: Grammar, pr: Printer, n: Node)
    requires Syntax(u) && (if n.StringNode? then PrintableString(g, pr, n.text) else Printable(u, g, pr, n))
    ensures AllLexable(u, Tokens(pr, n))
    decreases n, 0
  {
    hide Lexable;
    hide AllLexable;
    match n {
      case ScalarNode(v) =>
        LexableNumber(u, pr.numeral(v));
        LexableOne(u, Token(TNumber, pr.numeral(v).Unsigned()));
      case StringNode(s) =>
        LexableString(u, g, pr, s);
        LexableOne(u, Token(TString, Quoted(pr, s)));
      case VarNode(name) =>
        LexableVar(u, name);
        LexableOne(u, Token(TVar, VarText(name)));
      case UnaryNode(op, a) =>
        LexableOp(u, op);
        LexableOne(u, Op(op));
        AtLexable(u, g, pr, a, 6);
        LexableConcat(u, [Op(op)], At(pr, a, 6));
      case BinaryNode(op, a, b) =>
        LexableOp(u, op);
        LexableOne(u, Op(op));
        AtLexable(u, g, pr, a, Tightness(op));
        AtLexable(u, g, pr, b, Tightness(op) + 1);
        LexableConcat(u, [Op(op)], At(pr, b, Tightness(op) + 1));
        LexableConcat(u, At(pr, a, Tightness(op)), [Op(op)] + At(pr, b, Tightness(op) + 1));
      case FuncNode(name, _, args) =>
        var part := ArgTokens(pr, args, |args| == 1);
        LexableName(u, name);
        LexableParens(u);
        LexableOne(u, Token(TFunc, name));
        LexableOne(u, LEFT);
        LexableOne(u, RIGHT);
        ArgsLexable(u, g, pr, args, |args| == 1);
        LexableConcat(u, part, [RIGHT]);
        LexableConcat(u, [Token(TFunc, name)], [LEFT]);
        assert [Token(TFunc, name), LEFT] == [Token(TFunc, name)] + [LEFT];
        LexableConcat(u, [Token(TFunc, name), LEFT], part + [RIGHT]);
    }
  }

  lemma WrapLexable(u: Classes, part: seq<Token>)
    requires Syntax(u) && AllLexable(u, part)
    ensures AllLexable(u, Wrap(part))
  {
    hide Lexable;
    hide AllLexable;
    LexableParens(u);
    LexableOne(u, LEFT);
    LexableOne(u, RIGHT);
    LexableConcat(u, part, [RIGHT]);
    LexableConcat(u, [LEFT], part + [RIGHT]);
  }

  lemma {:induction false} AtLexable(u: Classes, g: Grammar, pr: Printer, n: Node, level: nat)
    requires Syntax(u) && Printable(u, g, pr, n)
    ensures AllLexable(u, At(pr, n, level))
    decreases n, 1
  {
    hide AllLexable;
    hide Tokens;
    assert !n.StringNode?;
    TokensLexable(u, g, pr, n);
    WrapLexable(u, Tokens(pr, n));
  }

  lemma {:induction false} ArgsLexable(u: Classes, g: Grammar, pr: Printer, args: seq<Node>, alone: bool)
    requires Syntax(u) && PrintableArgs(u, g, pr, args)
    ensures AllLexable(u, ArgTokens(pr, args, alone))
    decreases args, 0
  {
    if args != [] {
      FirstArgument(u, g, pr, args, alone);
      hide AllLexable;
      hide Printable;
      hide PrintableArgs;
      hide Tokens;
      TokensLexable(u, g, pr, args[0]);
      WrapLexable(u, Tokens(pr, args[0]));
      ArgsLexable(u, g, pr, args[1..], alone);
      LexableConcat(u, ArgPart(pr, args[0], alone), ArgTokens(pr, args[1..], alone));
    }
  }

  // ----------------------------------------------------------------- main result

  /**
    Printing and parsing: the text of any tree parses to that tree, unless the type check refuses
    it. So "||" binds loosest, then "&&", comparisons, sums, products and "**"; all group to the
    left, and "!" and "-" before an operand bind tightest.
  */
  lemma PrintParses(u: Classes, g: Grammar, pr: Printer, n: Node)
    requires Syntax(u) && Printable(u, g, pr, n)
    ensures Parse(u, g, Text(Tokens(pr, n))) == if Check(g, n) then Some(Tree(n, VarsOf(n))) else None
  {
    hide *;
    var part := Tokens(pr, n);
    NotAString(u, g, pr, n);
    TokensLexable(u, g, pr, n);
    SyntaxIsUnicode(u);
    LexText(u, part);
    TokensParse(u, g, pr, n);
    ParseOf(u, g, Text(part), n, |part|, VarsOf(n));
  }

  lemma NotAString(u: Classes, g: Grammar, pr: Printer, n: Node)
    requires Printable(u, g, pr, n)
    ensures !n.StringNode?
  {
  }

  lemma SyntaxIsUnicode(u: Classes)
    requires Syntax(u)
    ensures Unicode(u)
  {
  }

  /** The tokens of a tree, and then the end of the text. */
  lemma TokensParse(u: Classes, g: Grammar, pr: Printer, n: Node)
    requires Printable(u, g, pr, n)
    ensures
      var part := Tokens(pr, n);
      ParseLevel(g, part + [Token(TEOF, "")], 0, 0) == Done(n, |part|, VarsOf(n))
  {
    hide Printable;
    hide ParseLevel;
    hide Tokens;
    var part := Tokens(pr, n);
    var ts := part + [Token(TEOF, "")];
    assert At(pr, n, 0) == part;
    EndsAtOther(ts, |part|);
    hide Ends;
    assert ts[0..|part|] == part;
    ParseAt(u, g, pr, n, ts, 0, 0);
  }

  lemma ParseOf(u: Classes, g: Grammar, text: string, n: Node, end: nat, vars: seq<string>)
    requires end < |Lex(u, text)| && Lex(u, text)[end].kind == TEOF
    requires ParseLevel(g, Lex(u, text), 0, 0) == Done(n, end, vars)
    ensures Parse(u, g, text) == if Check(g, n) then Some(Tree(n, vars)) else None
  {
    hide Lex;
    hide ParseLevel;
    hide Check;
  }
}
