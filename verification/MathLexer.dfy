/**
  The lexer of math expressions. Each function scans the text that is still to be read.
  The Unicode character classes are a parameter.
*/
module MathLexer {
  import opened Wrappers

  datatype Kind =
    | TError | TEOF | TNot | TAnd | TOr | TGreater | TLess | TGreaterEq | TLessEq | TEq | TNotEq
    | TPlus | TMinus | TMult | TDiv | TMod | TPow | TNumber | TComma | TLeftParen | TRightParen
    | TString | TFunc | TVar

  datatype Token = Token(kind: Kind, text: string)

  datatype Classes = Classes(letter: char -> bool, digit: char -> bool, space: char -> bool)

  predicate IsDecimal(c: char)
  {
    '0' <= c <= '9'
  }

  predicate IsHexDigit(c: char)
  {
    IsDecimal(c) || 'a' <= c <= 'f' || 'A' <= c <= 'F'
  }

  predicate IsSymbol(c: char)
  {
    c in {'!', '<', '>', '=', '&', '|', '+', '-', '*', '/', '%'}
  }

  predicate IsVarChar(u: Classes, c: char)
  {
    c == '_' || u.letter(c) || u.digit(c)
  }

  /** How many leading characters satisfy the predicate. */
  function Run(p: char -> bool, s: string): (n: nat)
    ensures n <= |s|
    ensures forall i | 0 <= i < n :: p(s[i])
    ensures n < |s| ==> !p(s[n])
  {
    if s == "" || !p(s[0]) then 0 else 1 + Run(p, s[1..])
  }

  function SymbolKind(text: string): Kind
  {
    if text == "!" then TNot
    else if text == "&&" then TAnd
    else if text == "||" then TOr
    else if text == ">" then TGreater
    else if text == "<" then TLess
    else if text == ">=" then TGreaterEq
    else if text == "<=" then TLessEq
    else if text == "==" then TEq
    else if text == "!=" then TNotEq
    else if text == "+" then TPlus
    else if text == "-" then TMinus
    else if text == "*" then TMult
    else if text == "**" then TPow
    else if text == "/" then TDiv
    else if text == "%" then TMod
    else TError
  }

  predicate IsHex(s: string)
  {
    |s| > 1 && s[0] == '0' && (s[1] == 'x' || s[1] == 'X')
  }

  /** Where a run of digits that starts at `i` ends. */
  function DigitsEnd(digits: char -> bool, s: string, i: nat): (n: nat)
    requires i <= |s|
    ensures i <= n <= |s|
  {
    i + Run(digits, s[i..])
  }

  function FractionEnd(digits: char -> bool, s: string, i: nat): (n: nat)
    requires i <= |s|
    ensures i <= n <= |s|
  {
    if i < |s| && s[i] == '.' then DigitsEnd(digits, s, i + 1) else i
  }

  function ExponentEnd(s: string, i: nat): (n: nat)
    requires i <= |s|
    ensures i <= n <= |s|
  {
    if i < |s| && (s[i] == 'e' || s[i] == 'E') then
      var sign := if i + 1 < |s| && (s[i + 1] == '+' || s[i + 1] == '-') then i + 2 else i + 1;
      DigitsEnd(IsDecimal, s, sign)
    else i
  }

  /** The length scanNumber consumes; it can be zero on a digit outside 0-9. */
  function ScanNumber(s: string): (n: nat)
    ensures n <= |s|
  {
    var digits := if IsHex(s) then IsHexDigit else IsDecimal;
    var start := if IsHex(s) then 2 else if s != "" && s[0] == '0' then 1 else 0;
    ExponentEnd(s, FractionEnd(digits, s, DigitsEnd(digits, s, start)))
  }

  function NameChar(u: Classes): char -> bool
  {
    c => IsVarChar(u, c)
  }

  /** Inside braces a name may also contain spaces; the closing brace always ends it. */
  function BracedChar(u: Classes): char -> bool
  {
    c => c != '}' && (IsVarChar(u, c) || u.space(c))
  }

  /** After '$': the length of a plain or braced variable, or zero for a lexical error. */
  function ScanVar(u: Classes, s: string): (n: nat)
    ensures n <= |s|
  {
    if s != "" && s[0] == '{' then
      var k := Run(BracedChar(u), s[1..]);
      if 0 < k && 1 + k < |s| && s[1 + k] == '}' then k + 2 else 0
    else Run(NameChar(u), s)
  }

  /** The offset of the closing quote, or the length of the text if there is none. */
  function ScanString(s: string): (n: nat)
    ensures n <= |s|
  {
    Run(c => c != '"', s)
  }

  function Lex(u: Classes, s: string): (tokens: seq<Token>)
    ensures tokens != []
    decreases |s|
  {
    if s == "" then [Token(TEOF, "")]
    else
      var c := s[0];
      if c == '$' then
        var n := ScanVar(u, s[1..]);
        if n == 0 then [Token(TError, "")] else [Token(TVar, s[..n + 1])] + Lex(u, s[n + 1..])
      else if IsSymbol(c) then
        var n := 1 + Run(IsSymbol, s[1..]);
        [Token(SymbolKind(s[..n]), s[..n])] + Lex(u, s[n..])
      else if u.digit(c) || c == '.' then
        var n := ScanNumber(s);
        if n == 0 then [Token(TNumber, ""), Token(TError, "")] else [Token(TNumber, s[..n])] + Lex(u, s[n..])
      else if u.letter(c) then
        var n := 1 + Run(d => u.letter(d) || d == '_', s[1..]);
        [Token(TFunc, s[..n])] + Lex(u, s[n..])
      else if c == '(' then [Token(TLeftParen, "(")] + Lex(u, s[1..])
      else if c == ')' then [Token(TRightParen, ")")] + Lex(u, s[1..])
      else if c == '"' then
        var n := ScanString(s[1..]);
        if 1 + n == |s| then [Token(TError, "")] else [Token(TString, s[..n + 2])] + Lex(u, s[n + 2..])
      else if c == ',' then [Token(TComma, ",")] + Lex(u, s[1..])
      else if u.space(c) then Lex(u, s[1..])
      else [Token(TError, "")]
  }

  /** What the proofs need to know about Unicode: ASCII digits, the space and the syntax characters. */
  ghost predicate Unicode(u: Classes)
  {
    && (forall c | IsDecimal(c) :: u.digit(c))
    && u.space(' ')
    && (forall c | IsSymbol(c) :: !u.digit(c) && !u.letter(c) && !u.space(c))
    && !u.digit(' ') && !u.letter(' ')
  }

  lemma {:induction false} RunExact(p: char -> bool, a: string, b: string)
    requires forall i | 0 <= i < |a| :: p(a[i])
    requires b == "" || !p(b[0])
    ensures Run(p, a + b) == |a|
  {
    if a == "" {
      assert a + b == b;
    } else {
      assert (a + b)[1..] == a[1..] + b;
      RunExact(p, a[1..], b);
    }
  }

  predicate IsOperator(k: Kind)
  {
    k in {TNot, TAnd, TOr, TGreater, TLess, TGreaterEq, TLessEq, TEq, TNotEq, TPlus, TMinus, TMult, TDiv, TMod, TPow}
  }

  lemma SymbolIsOperator(text: string)
    ensures SymbolKind(text) !in {TEOF, TVar}
  {
  }

  /** A closing brace can only be the end of the text. */
  ghost predicate BraceLast(text: string)
  {
    forall i | 0 <= i < |text| - 1 :: text[i] != '}'
  }

  lemma VarTextIsBraceLast(u: Classes, s: string)
    requires s != "" && s[0] == '$'
    ensures !u.letter('}') && !u.digit('}') ==> BraceLast(s[..1 + ScanVar(u, s[1..])])
  {
  }

  /**
    Not the end of the text; if a variable, then one that ends at its first closing brace; if an
    operator, then that operator's text.
  */
  ghost predicate Inner(u: Classes, t: Token)
  {
    && t.kind != TEOF
    && (t.kind == TVar && !u.letter('}') && !u.digit('}') ==> BraceLast(t.text))
    && (IsOperator(t.kind) ==> SymbolKind(t.text) == t.kind)
  }

  /** One round of the lexer yields `head` and leaves the text `rest`, if it goes on. */
  ghost predicate Round(u: Classes, s: string, head: seq<Token>, rest: Option<string>)
  {
    && (forall i | 0 <= i < |head| :: Inner(u, head[i]))
    && (rest.Some? ==> |rest.value| < |s|)
    && Lex(u, s) == head + if rest.Some? then Lex(u, rest.value) else []
  }

  lemma RoundVar(u: Classes, s: string) returns (head: seq<Token>, rest: Option<string>)
    requires s != "" && s[0] == '$'
    ensures Round(u, s, head, rest)
  {
    hide ScanVar;
    hide BraceLast;
    var n := ScanVar(u, s[1..]);
    VarTextIsBraceLast(u, s);
    if n > 0 {
      head, rest := [Token(TVar, s[..n + 1])], Some(s[n + 1..]);
    } else {
      head, rest := [Token(TError, "")], None;
    }
  }

  lemma RoundSymbol(u: Classes, s: string) returns (head: seq<Token>, rest: Option<string>)
    requires s != "" && s[0] != '$' && IsSymbol(s[0])
    ensures Round(u, s, head, rest)
  {
    hide SymbolKind;
    hide IsSymbol;
    var n := 1 + Run(IsSymbol, s[1..]);
    SymbolIsOperator(s[..n]);
    head, rest := [Token(SymbolKind(s[..n]), s[..n])], Some(s[n..]);
  }

  lemma RoundNumber(u: Classes, s: string) returns (head: seq<Token>, rest: Option<string>)
    requires s != "" && s[0] != '$' && !IsSymbol(s[0]) && (u.digit(s[0]) || s[0] == '.')
    ensures Round(u, s, head, rest)
  {
    hide ScanNumber;
    hide IsSymbol;
    hide Run;
    var n := ScanNumber(s);
    if n > 0 {
      head, rest := [Token(TNumber, s[..n])], Some(s[n..]);
    } else {
      head, rest := [Token(TNumber, ""), Token(TError, "")], None;
    }
  }

  lemma RoundWord(u: Classes, s: string) returns (head: seq<Token>, rest: Option<string>)
    requires s != "" && s[0] != '$' && !IsSymbol(s[0]) && !u.digit(s[0]) && s[0] != '.' && u.letter(s[0])
    ensures Round(u, s, head, rest)
  {
    hide IsSymbol;
    hide Run;
    var n := 1 + Run(d => u.letter(d) || d == '_', s[1..]);
    head, rest := [Token(TFunc, s[..n])], Some(s[n..]);
  }

  lemma RoundOther(u: Classes, s: string) returns (head: seq<Token>, rest: Option<string>)
    requires s != "" && s[0] != '$' && !IsSymbol(s[0]) && !u.digit(s[0]) && s[0] != '.' && !u.letter(s[0])
    ensures Round(u, s, head, rest)
  {
    hide ScanString;
    hide IsSymbol;
    var c, n := s[0], ScanString(s[1..]);
    if c == '"' && 1 + n < |s| {
      head, rest := [Token(TString, s[..n + 2])], Some(s[n + 2..]);
    } else if c == '(' || c == ')' || c == ',' {
      head, rest := [Token(if c == '(' then TLeftParen else if c == ')' then TRightParen else TComma, [c])], Some(s[1..]);
    } else if c != '"' && u.space(c) {
      head, rest := [], Some(s[1..]);
    } else {
      head, rest := [Token(TError, "")], None;
    }
  }

  lemma LexRound(u: Classes, s: string) returns (head: seq<Token>, rest: Option<string>)
    requires s != ""
    ensures Round(u, s, head, rest)
  {
    hide Round;
    if s[0] == '$' {
      head, rest := RoundVar(u, s);
    } else if IsSymbol(s[0]) {
      head, rest := RoundSymbol(u, s);
    } else if u.digit(s[0]) || s[0] == '.' {
      head, rest := RoundNumber(u, s);
    } else if u.letter(s[0]) {
      head, rest := RoundWord(u, s);
    } else {
      head, rest := RoundOther(u, s);
    }
  }

  /** The end of the text is the last token and no other; what comes before is an inner token. */
  lemma {:induction false} EofIsLast(u: Classes, s: string, i: nat)
    requires i < |Lex(u, s)|
    ensures Inner(u, Lex(u, s)[i]) || (i == |Lex(u, s)| - 1 && Lex(u, s)[i].kind == TEOF)
    decreases |s|
  {
    if s == "" {
      return;
    }
    var head, rest := LexRound(u, s);
    hide Lex;
    hide Inner;
    if i >= |head| {
      EofIsLast(u, rest.value, i - |head|);
    }
  }
}
