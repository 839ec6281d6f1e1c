/**
  The recursive-descent parser of math expressions. The six binary levels of the grammar share
  one shape, so they share one function: level 0 is "||" and level 5 is "**".
*/
module MathParser {
  import opened Wrappers
  import opened MathValues
  import opened MathLexer

  /** Result types in their declared order; a binary node has the larger of its operands' types. */
  datatype ReturnType = TypeString | TypeScalar | TypeNumberSet | TypeSeriesSet | TypeVariantSet

  function Rank(t: ReturnType): nat
  {
    match t
    case TypeString => 0
    case TypeScalar => 1
    case TypeNumberSet => 2
    case TypeSeriesSet => 3
    case TypeVariantSet => 4
  }

  datatype Node =
    | ScalarNode(value: Float)
    | StringNode(text: string)
    | VarNode(name: string)
    | UnaryNode(op: string, arg: Node)
    | BinaryNode(op: string, left: Node, right: Node)
    | FuncNode(name: string, ret: ReturnType, args: seq<Node>)

  datatype Func = Func(args: seq<ReturnType>, ret: ReturnType, variant: bool)

  /** strconv's readers and the table of functions. */
  datatype Grammar = Grammar(
    number: string -> Option<Float>,
    unquote: string -> Option<string>,
    funcs: map<string, Func>)

  /** `vars` are the names appended to VarNames while this part was parsed. */
  datatype Parsed = Fail | Done(node: Node, pos: nat, vars: seq<string>)

  function OpsAt(level: nat): set<Kind>
  {
    match level
    case 0 => {TOr}
    case 1 => {TAnd}
    case 2 => {TEq, TNotEq, TGreater, TGreaterEq, TLess, TLessEq}
    case 3 => {TPlus, TMinus}
    case 4 => {TMult, TDiv, TMod}
    case 5 => {TPow}
    case _ => {}
  }

  function KindAt(ts: seq<Token>, pos: nat): Kind
  {
    if pos < |ts| then ts[pos].kind else TError
  }

  function TrimPrefix(s: string, c: char): string
  {
    if s != "" && s[0] == c then s[1..] else s
  }

  function TrimSuffix(s: string, c: char): string
  {
    if s != "" && s[|s| - 1] == c then s[..|s| - 1] else s
  }

  /** The variable's name without '$' and braces. */
  function VarName(text: string): string
  {
    TrimSuffix(TrimPrefix(TrimPrefix(text, '$'), '{'), '}')
  }

  function Return(n: Node): ReturnType
  {
    match n
    case ScalarNode(_) => TypeScalar
    case StringNode(_) => TypeString
    case VarNode(_) => TypeSeriesSet
    case UnaryNode(_, a) => Return(a)
    case BinaryNode(_, a, b) => if Rank(Return(b)) > Rank(Return(a)) then Return(b) else Return(a)
    case FuncNode(_, ret, _) => ret
  }

  /** The variables a tree mentions, left to right. */
  function VarsOf(n: Node): seq<string>
  {
    match n
    case ScalarNode(_) => []
    case StringNode(_) => []
    case VarNode(name) => [name]
    case UnaryNode(_, a) => VarsOf(a)
    case BinaryNode(_, a, b) => VarsOf(a) + VarsOf(b)
    case FuncNode(_, _, args) => VarsOfAll(args)
  }

  function VarsOfAll(args: seq<Node>): seq<string>
  {
    if args == [] then [] else VarsOf(args[0]) + VarsOfAll(args[1..])
  }

  lemma VarsOfCons(n: Node, args: seq<Node>)
    ensures VarsOfAll([n] + args) == VarsOf(n) + VarsOfAll(args)
  {
    assert ([n] + args)[1..] == args;
  }

  function ParseLevel(g: Grammar, ts: seq<Token>, pos: nat, level: nat): (r: Parsed)
    requires level <= 6
    ensures r.Done? ==> pos < r.pos <= |ts| && r.vars == VarsOf(r.node)
    decreases |ts| - pos, 2, 6 - level
  {
    if level == 6 then ParseFactor(g, ts, pos)
    else
      var first := ParseLevel(g, ts, pos, level + 1);
      if first.Fail? then Fail
      else
        var r := ParseMore(g, ts, first.pos, level, first.node);
        if r.Fail? then Fail else Done(r.node, r.pos, first.vars + r.vars)
  }

  /** The loop of a level: as long as one of its operators follows, take it and one more operand. */
  function ParseMore(g: Grammar, ts: seq<Token>, pos: nat, level: nat, left: Node): (r: Parsed)
    requires level < 6 && pos <= |ts|
    ensures r.Done? ==> pos <= r.pos <= |ts| && VarsOf(r.node) == VarsOf(left) + r.vars
    decreases |ts| - pos, 3, 0
  {
    if KindAt(ts, pos) !in OpsAt(level) || pos >= |ts| then Done(left, pos, [])
    else
      var right := ParseLevel(g, ts, pos + 1, level + 1);
      if right.Fail? then Fail
      else
        var node := BinaryNode(ts[pos].text, left, right.node);
        var r := ParseMore(g, ts, right.pos, level, node);
        if r.Fail? then Fail
        else
          assert VarsOf(node) == VarsOf(left) + right.vars;
          assert VarsOf(left) + right.vars + r.vars == VarsOf(left) + (right.vars + r.vars);
          Done(r.node, r.pos, right.vars + r.vars)
  }

  function ParseFactor(g: Grammar, ts: seq<Token>, pos: nat): (r: Parsed)
    ensures r.Done? ==> pos < r.pos <= |ts| && r.vars == VarsOf(r.node)
    decreases |ts| - pos, 1, 0
  {
    if pos >= |ts| then Fail
    else
      match ts[pos].kind
      case TNumber =>
        var v := g.number(ts[pos].text);
        if v.None? then Fail else Done(ScalarNode(v.value), pos + 1, [])
      case TVar => Done(VarNode(VarName(ts[pos].text)), pos + 1, [VarName(ts[pos].text)])
      case TFunc =>
        if ts[pos].text !in g.funcs || KindAt(ts, pos + 1) != TLeftParen || pos + 1 >= |ts| then Fail
        else
          var f := g.funcs[ts[pos].text];
          var r := ParseArgs(g, ts, pos + 2, f.variant, f.ret);
          if r.FailArgs? then Fail else Done(FuncNode(ts[pos].text, r.ret, r.args), r.pos, r.vars)
      case TNot => ParseUnary(g, ts, pos)
      case TMinus => ParseUnary(g, ts, pos)
      case TLeftParen =>
        var r := ParseLevel(g, ts, pos + 1, 0);
        if r.Fail? || KindAt(ts, r.pos) != TRightParen || r.pos >= |ts| then Fail
        else Done(r.node, r.pos + 1, r.vars)
      case _ => Fail
  }

  function ParseUnary(g: Grammar, ts: seq<Token>, pos: nat): (r: Parsed)
    requires pos < |ts|
    ensures r.Done? ==> pos < r.pos <= |ts| && r.vars == VarsOf(r.node)
    decreases |ts| - pos, 0, 0
  {
    var r := ParseFactor(g, ts, pos + 1);
    if r.Fail? then Fail else Done(UnaryNode(ts[pos].text, r.node), r.pos, r.vars)
  }

  datatype ParsedArgs = FailArgs | DoneArgs(args: seq<Node>, ret: ReturnType, pos: nat, vars: seq<string>)

  /**
    Arguments up to the closing parenthesis; `ret` is the call's type, which the first argument
    may override. There is no case for a comma.
  */
  function ParseArgs(g: Grammar, ts: seq<Token>, pos: nat, variant: bool, ret: ReturnType): (r: ParsedArgs)
    requires pos <= |ts|
    ensures r.DoneArgs? ==> pos < r.pos <= |ts| && r.vars == VarsOfAll(r.args)
    decreases |ts| - pos, 3, 0
  {
    if pos >= |ts| then FailArgs
    else if ts[pos].kind == TRightParen then DoneArgs([], ret, pos + 1, [])
    else if ts[pos].kind == TString then
      var text := g.unquote(ts[pos].text);
      if text.None? then FailArgs
      else WithArg(StringNode(text.value), [], ParseArgs(g, ts, pos + 1, false, ret))
    else
      var one := ParseLevel(g, ts, pos, 0);
      if one.Fail? then FailArgs
      else
        var ret' := if variant then Return(one.node) else ret;
        WithArg(one.node, one.vars, ParseArgs(g, ts, one.pos, false, ret'))
  }

  function WithArg(n: Node, vars: seq<string>, rest: ParsedArgs): (r: ParsedArgs)
    requires vars == VarsOf(n)
    requires rest.DoneArgs? ==> rest.vars == VarsOfAll(rest.args)
    ensures r.DoneArgs? <==> rest.DoneArgs?
    ensures r.DoneArgs? ==> r.pos == rest.pos && r.vars == VarsOfAll(r.args)
  {
    if rest.FailArgs? then FailArgs
    else
      VarsOfCons(n, rest.args);
      rest.(args := [n] + rest.args, vars := vars + rest.vars)
  }

  /** Type checking. A binary node is not checked, nor is anything below it. */
  predicate Check(g: Grammar, n: Node)
  {
    match n
    case UnaryNode(_, a) => Return(a) in {TypeNumberSet, TypeSeriesSet, TypeScalar} && Check(g, a)
    case FuncNode(name, _, args) =>
      && name in g.funcs
      && |args| == |g.funcs[name].args|
      && forall i | 0 <= i < |args| ::
           (if g.funcs[name].args[i] == TypeVariantSet then Return(args[i]) in {TypeNumberSet, TypeSeriesSet, TypeScalar}
            else Return(args[i]) == g.funcs[name].args[i])
           && Check(g, args[i])
    case _ => true
  }

  datatype Tree = Tree(root: Node, varNames: seq<string>)

  /** The whole parse. The names the command declares as needed are the variables of the tree. */
  function Parse(u: Classes, g: Grammar, text: string): (r: Option<Tree>)
    ensures r.Some? ==> r.value.varNames == VarsOf(r.value.root)
  {
    var ts := Lex(u, text);
    var r := ParseLevel(g, ts, 0, 0);
    if r.Fail? || KindAt(ts, r.pos) != TEOF || !Check(g, r.node) then None else Some(Tree(r.node, r.vars))
  }

  // ------------------------------------------------------- what a parse consumes

  ghost predicate CommaFree(ts: seq<Token>, from: nat, to: nat)
  {
    forall i | from <= i < to && i < |ts| :: ts[i].kind != TComma
  }

  /** Some variable token bears the name. */
  ghost predicate IsVarOf(ts: seq<Token>, name: string)
  {
    exists i :: 0 <= i < |ts| && ts[i].kind == TVar && VarName(ts[i].text) == name
  }

  ghost predicate VarsFrom(ts: seq<Token>, vars: seq<string>)
  {
    forall v | v in vars :: IsVarOf(ts, v)
  }

  lemma {:induction false} LevelReads(g: Grammar, ts: seq<Token>, pos: nat, level: nat)
    requires level <= 6
    ensures var r := ParseLevel(g, ts, pos, level); r.Done? ==> CommaFree(ts, pos, r.pos) && VarsFrom(ts, r.vars)
    decreases |ts| - pos, 2, 6 - level
  {
    if level == 6 {
      FactorReads(g, ts, pos);
    } else {
      LevelReads(g, ts, pos, level + 1);
      var first := ParseLevel(g, ts, pos, level + 1);
      if first.Done? {
        MoreReads(g, ts, first.pos, level, first.node);
      }
    }
  }

  lemma {:induction false} MoreReads(g: Grammar, ts: seq<Token>, pos: nat, level: nat, left: Node)
    requires level < 6 && pos <= |ts|
    ensures var r := ParseMore(g, ts, pos, level, left); r.Done? ==> CommaFree(ts, pos, r.pos) && VarsFrom(ts, r.vars)
    decreases |ts| - pos, 3, 0
  {
    hide ParseLevel;
    hide VarsOf;
    if KindAt(ts, pos) in OpsAt(level) && pos < |ts| {
      LevelReads(g, ts, pos + 1, level + 1);
      var right := ParseLevel(g, ts, pos + 1, level + 1);
      if right.Done? {
        MoreReads(g, ts, right.pos, level, BinaryNode(ts[pos].text, left, right.node));
      }
    }
  }

  lemma {:induction false} FactorReads(g: Grammar, ts: seq<Token>, pos: nat)
    ensures var r := ParseFactor(g, ts, pos); r.Done? ==> CommaFree(ts, pos, r.pos) && VarsFrom(ts, r.vars)
    decreases |ts| - pos, 1, 0
  {
    if pos < |ts| {
      match ts[pos].kind {
        case TFunc =>
          if ts[pos].text in g.funcs && pos + 1 < |ts| {
            var f := g.funcs[ts[pos].text];
            ArgsRead(g, ts, pos + 2, f.variant, f.ret);
          }
        case TVar => assert IsVarOf(ts, VarName(ts[pos].text));
        case TNot => FactorReads(g, ts, pos + 1);
        case TMinus => FactorReads(g, ts, pos + 1);
        case TLeftParen => LevelReads(g, ts, pos + 1, 0);
        case _ =>
      }
    }
  }

  lemma {:induction false} ArgsRead(g: Grammar, ts: seq<Token>, pos: nat, variant: bool, ret: ReturnType)
    requires pos <= |ts|
    ensures var r := ParseArgs(g, ts, pos, variant, ret); r.DoneArgs? ==> CommaFree(ts, pos, r.pos) && VarsFrom(ts, r.vars)
    decreases |ts| - pos, 3, 0
  {
    if pos < |ts| {
      if ts[pos].kind == TString {
        ArgsRead(g, ts, pos + 1, false, ret);
      } else if ts[pos].kind != TRightParen {
        LevelReads(g, ts, pos, 0);
        var one := ParseLevel(g, ts, pos, 0);
        if one.Done? {
          ArgsRead(g, ts, one.pos, false, if variant then Return(one.node) else ret);
        }
      }
    }
  }

  /** No text with a comma in it, outside a string, is an expression. */
  lemma CommaNeverParses(u: Classes, g: Grammar, text: string, i: nat)
    requires i < |Lex(u, text)| && Lex(u, text)[i].kind == TComma
    ensures Parse(u, g, text).None?
  {
    hide ParseLevel;
    hide Lex;
    hide Check;
    LevelReads(g, Lex(u, text), 0, 0);
    var r := ParseLevel(g, Lex(u, text), 0, 0);
    if r.Done? && r.pos < |Lex(u, text)| {
      EofIsLast(u, text, r.pos);
    }
  }

  /** A parse that starts at a variable mentions it. */
  lemma {:induction false} LevelStartsWithVar(g: Grammar, ts: seq<Token>, pos: nat, level: nat)
    requires level <= 6 && pos < |ts| && ts[pos].kind == TVar
    ensures var r := ParseLevel(g, ts, pos, level); r.Done? ==> r.vars != []
    decreases 6 - level
  {
    if level < 6 {
      LevelStartsWithVar(g, ts, pos, level + 1);
    }
  }

  /** The name of a variable has no closing brace in it. */
  lemma VarNameIsBraceFree(text: string)
    requires BraceLast(text)
    ensures '}' !in VarName(text)
  {
  }

  lemma ParsedNamesAreBraceFree(u: Classes, g: Grammar, text: string)
    requires !u.letter('}') && !u.digit('}') && Parse(u, g, text).Some?
    ensures forall v | v in Parse(u, g, text).value.varNames :: '}' !in v
  {
    hide ParseLevel;
    hide Lex;
    hide Check;
    hide VarName;
    var ts := Lex(u, text);
    LevelReads(g, ts, 0, 0);
    forall v | IsVarOf(ts, v) ensures '}' !in v {
      var i :| 0 <= i < |ts| && ts[i].kind == TVar && VarName(ts[i].text) == v;
      EofIsLast(u, text, i);
      VarNameIsBraceFree(ts[i].text);
    }
  }
}
