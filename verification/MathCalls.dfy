/**
  Calls inside math expressions. The evaluator calls a function through reflection, which panics
  unless the call has the declared number of arguments and strings exactly where they are declared.
  The parser's type check is to rule that out, but it does not look below a binary operator.
*/
module MathCalls {
  import opened Wrappers
  import opened MathValues
  import opened MathLexer
  import opened MathParser
  import opened MathEval

  /** The call can be made. */
  predicate Fits(g: Grammar, name: string, args: seq<Node>)
  {
    && name in g.funcs
    && |args| == |g.funcs[name].args|
    && forall i | 0 <= i < |args| :: args[i].StringNode? <==> g.funcs[name].args[i] == TypeString
  }

  /** Every call of the tree can be made. */
  predicate AllFit(g: Grammar, n: Node)
  {
    match n
    case UnaryNode(_, a) => AllFit(g, a)
    case BinaryNode(_, a, b) => AllFit(g, a) && AllFit(g, b)
    case FuncNode(name, _, args) => Fits(g, name, args) && forall i | 0 <= i < |args| :: AllFit(g, args[i])
    case _ => true
  }

  /** Every call below a topmost binary operator can be made. */
  predicate UncheckedFit(g: Grammar, n: Node)
  {
    match n
    case UnaryNode(_, a) => UncheckedFit(g, a)
    case BinaryNode(_, a, b) => AllFit(g, a) && AllFit(g, b)
    case FuncNode(_, _, args) => forall i | 0 <= i < |args| :: UncheckedFit(g, args[i])
    case _ => true
  }

  // ------------------------------------------------------- what the parser builds

  /** No function takes text, as none of the built-in ones does. */
  ghost predicate NoTextArgs(g: Grammar)
  {
    forall name | name in g.funcs :: TypeString !in g.funcs[name].args
  }

  predicate KnownBinary(op: string)
  {
    IsOperator(SymbolKind(op)) && SymbolKind(op) != TNot
  }

  /** Known operators, and strings only as arguments. */
  predicate Sound(n: Node)
  {
    match n
    case ScalarNode(_) => true
    case StringNode(_) => false
    case VarNode(_) => true
    case UnaryNode(op, a) => (op == "!" || op == "-") && Sound(a)
    case BinaryNode(op, a, b) => KnownBinary(op) && Sound(a) && Sound(b)
    case FuncNode(_, _, args) => forall i | 0 <= i < |args| :: args[i].StringNode? || Sound(args[i])
  }

  predicate SoundArgs(args: seq<Node>)
  {
    forall i | 0 <= i < |args| :: args[i].StringNode? || Sound(args[i])
  }

  ghost predicate OpTokens(ts: seq<Token>)
  {
    forall i | 0 <= i < |ts| && IsOperator(ts[i].kind) :: SymbolKind(ts[i].text) == ts[i].kind
  }

  lemma OpsAreOperators(level: nat, k: Kind)
    requires k in OpsAt(level)
    ensures IsOperator(k) && k != TNot
  {
  }

  lemma UnaryText(text: string)
    ensures SymbolKind(text) == TNot ==> text == "!"
    ensures SymbolKind(text) == TMinus ==> text == "-"
  {
  }

  lemma {:induction false} SoundLevel(g: Grammar, ts: seq<Token>, pos: nat, level: nat)
    requires OpTokens(ts) && level <= 6
    ensures var r := ParseLevel(g, ts, pos, level); r.Done? ==> Sound(r.node)
    decreases |ts| - pos, 2, 6 - level
  {
    if level == 6 {
      SoundFactor(g, ts, pos);
    } else {
      SoundLevel(g, ts, pos, level + 1);
      var first := ParseLevel(g, ts, pos, level + 1);
      if first.Done? {
        SoundMore(g, ts, first.pos, level, first.node);
      }
    }
  }

  lemma {:induction false} SoundMore(g: Grammar, ts: seq<Token>, pos: nat, level: nat, left: Node)
    requires OpTokens(ts) && level < 6 && pos <= |ts| && Sound(left)
    ensures var r := ParseMore(g, ts, pos, level, left); r.Done? ==> Sound(r.node)
    decreases |ts| - pos, 3, 0
  {
    hide ParseLevel;
    hide VarsOf;
    hide OpsAt;
    hide IsOperator;
    hide SymbolKind;
    if KindAt(ts, pos) in OpsAt(level) && pos < |ts| {
      OpsAreOperators(level, ts[pos].kind);
      SoundLevel(g, ts, pos + 1, level + 1);
      var right := ParseLevel(g, ts, pos + 1, level + 1);
      if right.Done? {
        SoundMore(g, ts, right.pos, level, BinaryNode(ts[pos].text, left, right.node));
      }
    }
  }

  lemma {:induction false} SoundUnary(g: Grammar, ts: seq<Token>, pos: nat)
    requires OpTokens(ts) && pos < |ts| && ts[pos].kind in {TNot, TMinus}
    ensures var r := ParseUnary(g, ts, pos); r.Done? ==> Sound(r.node)
    decreases |ts| - pos, 0, 0
  {
    hide ParseFactor;
    SoundFactor(g, ts, pos + 1);
    assert SymbolKind(ts[pos].text) == ts[pos].kind;
    hide SymbolKind;
    UnaryText(ts[pos].text);
  }

  lemma {:induction false} SoundFactor(g: Grammar, ts: seq<Token>, pos: nat)
    requires OpTokens(ts)
    ensures var r := ParseFactor(g, ts, pos); r.Done? ==> Sound(r.node)
    decreases |ts| - pos, 1, 0
  {
    hide OpTokens;
    hide ParseLevel;
    hide ParseArgs;
    hide ParseUnary;
    if pos < |ts| {
      match ts[pos].kind {
        case TFunc =>
          if ts[pos].text in g.funcs && pos + 1 < |ts| {
            var f := g.funcs[ts[pos].text];
            SoundCall(g, ts, pos + 2, f.variant, f.ret);
          }
        case TNot => SoundUnary(g, ts, pos);
        case TMinus => SoundUnary(g, ts, pos);
        case TLeftParen => SoundLevel(g, ts, pos + 1, 0);
        case _ =>
      }
    }
  }

  lemma {:induction false} SoundCall(g: Grammar, ts: seq<Token>, pos: nat, variant: bool, ret: ReturnType)
    requires OpTokens(ts) && pos <= |ts|
    ensures var r := ParseArgs(g, ts, pos, variant, ret); r.DoneArgs? ==> SoundArgs(r.args)
    decreases |ts| - pos, 3, 0
  {
    hide ParseLevel;
    hide OpTokens;
    if pos < |ts| {
      if ts[pos].kind == TString {
        SoundCall(g, ts, pos + 1, false, ret);
      } else if ts[pos].kind != TRightParen {
        SoundLevel(g, ts, pos, 0);
        var one := ParseLevel(g, ts, pos, 0);
        if one.Done? {
          SoundCall(g, ts, one.pos, false, if variant then Return(one.node) else ret);
        }
      }
    }
  }

  /** Every parsed expression is sound and has passed the type check. */
  lemma ParsedIsSound(u: Classes, g: Grammar, text: string)
    requires Parse(u, g, text).Some?
    ensures Sound(Parse(u, g, text).value.root) && Check(g, Parse(u, g, text).value.root)
  {
    hide Lex;
    hide ParseLevel;
    hide Check;
    hide Sound;
    var ts := Lex(u, text);
    forall i | 0 <= i < |ts| && IsOperator(ts[i].kind) ensures SymbolKind(ts[i].text) == ts[i].kind {
      EofIsLast(u, text, i);
    }
    SoundLevel(g, ts, 0, 0);
  }

  // -------------------------------------------------------------- what is checked

  lemma CheckedCallFits(g: Grammar, n: Node)
    requires NoTextArgs(g) && n.FuncNode? && Check(g, n)
    ensures Fits(g, n.name, n.args)
  {
    forall i | 0 <= i < |n.args| ensures !n.args[i].StringNode? && g.funcs[n.name].args[i] != TypeString {
      assert g.funcs[n.name].args[i] in g.funcs[n.name].args;
    }
  }

  /** In a checked tree every call can be made if and only if those below a binary operator can. */
  lemma {:induction false} CheckedFits(g: Grammar, n: Node)
    requires NoTextArgs(g) && Sound(n) && Check(g, n)
    ensures AllFit(g, n) <==> UncheckedFit(g, n)
  {
    match n {
      case UnaryNode(_, a) => CheckedFits(g, a);
      case FuncNode(_, _, args) =>
        CheckedCallFits(g, n);
        forall i | 0 <= i < |args| ensures AllFit(g, args[i]) <==> UncheckedFit(g, args[i]) {
          if !args[i].StringNode? {
            CheckedFits(g, args[i]);
          }
        }
      case _ =>
    }
  }
}
