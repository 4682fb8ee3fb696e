/**
 From the source text of a template to its tree: a template is written with one blank between the tokens inside
 delimiters, and the lexer and the parser together give it back. The delimiters are the default ones.
 */
module InjaSourceText {
  import opened Sequences
  import opened InjaSyntax
  import opened InjaExpression
  import opened InjaStatements
  import T = InjaTemplateProof
  import M = InjaTemplateMemory
  import L = InjaLexer
  import P = InjaLexerProof

  const CFG := L.DEFAULT_CONFIG

  // ---- The tokens of a text ----

  /** The token that the parser sees. Bracket and brace literals are not part of the model. */
  function ToToken(s: string, t: L.Lexeme): Token
    requires t.start <= t.end <= |s|
  {
    var text := s[t.start..t.end];
    match t.kind
    case Text => Text(text)
    case ExpressionOpen => ExpressionOpen
    case ExpressionClose => ExpressionClose
    case LineStatementOpen => LineStatementOpen
    case LineStatementClose => LineStatementClose
    case StatementOpen => StatementOpen
    case StatementClose => StatementClose
    case CommentOpen => CommentOpen
    case CommentClose => CommentClose
    case Id => Id(text)
    case Number => Number(text)
    case String => String(text)
    case Plus => Sign(Symbol.Plus)
    case Minus => Sign(Symbol.Minus)
    case Times => Sign(Symbol.Times)
    case Slash => Sign(Symbol.Slash)
    case Percent => Sign(Symbol.Percent)
    case Power => Sign(PowerSign)
    case Dot => Sign(Symbol.Dot)
    case Comma => Comma
    case Colon => Colon
    case Pipe => Pipe
    case LeftParen => LeftParen
    case RightParen => RightParen
    case Equal => Sign(EqualSign)
    case NotEqual => Sign(NotEqualSign)
    case GreaterThan => Sign(Symbol.GreaterThan)
    case GreaterEqual => Sign(GreaterEqualSign)
    case LessThan => Sign(Symbol.LessThan)
    case LessEqual => Sign(LessEqualSign)
    case Eof => Eof
    case _ => Unknown(text)
  }

  /** The tokens from a state of the lexer up to the end of the input. */
  function Tokens(s: string, l: L.Lex): seq<Token>
    requires CFG.Valid() && L.Reachable(CFG, s, l)
    decreases |s| - l.pos
  {
    P.ScanIsGood(CFG, s, l);
    var (t, n) := L.Scan(CFG, s, l);
    if t.kind == L.Eof then [] else [ToToken(s, t)] + Tokens(s, n)
  }

  // ---- How tokens are written ----

  function SignText(symbol: Symbol): string {
    match symbol
    case EqualSign => "=="
    case NotEqualSign => "!="
    case GreaterThan => ">"
    case GreaterEqualSign => ">="
    case LessThan => "<"
    case LessEqualSign => "<="
    case Plus => "+"
    case Minus => "-"
    case Times => "*"
    case Slash => "/"
    case PowerSign => "^"
    case Percent => "%"
    case Dot => "."
  }

  /** A token inside delimiters. */
  function Spelling(t: Token): string {
    match t
    case Id(name) => name
    case Number(text) => text
    case String(text) => text
    case Sign(symbol) => SignText(symbol)
    case Comma => ","
    case Colon => ":"
    case LeftParen => "("
    case RightParen => ")"
    case Pipe => "|"
    case Unknown(text) => text
    case _ => ""
  }

  predicate NameText(x: string) {
    x != "" && (IsAlpha(x[0]) || x[0] in "_@$") && forall k :: 0 < k < |x| ==> L.IdChar(x[k])
  }

  predicate NumberText(x: string) {
    x != "" && (IsDigit(x[0]) || x[0] == '-') && forall k :: 0 < k < |x| ==> L.NumberChar(x[k - 1], x[k])
  }

  /** A quoted text that ends with its first quote that is not escaped. */
  predicate StringText(x: string) {
    x != "" && x[0] == '"' && L.StringEnd(x + " ", 1, '"', false) == |x|
  }

  predicate Spelled(t: Token) {
    match t
    case Id(name) => NameText(name)
    case Number(text) => NumberText(text)
    case String(text) => StringText(text)
    case Sign(_) | Comma | Colon | LeftParen | RightParen | Pipe => true
    case Unknown(text) => text == "="
    case _ => false
  }

  predicate Negative(t: Token) {
    t.Number? && t.text != "" && t.text[0] == '-'
  }

  /** A minus sign has to follow an operand, and a negative number must not. */
  predicate MinusFits(t: Token, minus: L.MinusState) {
    (t == Sign(Symbol.Minus) ==> minus == L.Operator) && (Negative(t) ==> minus == L.Signed)
  }

  /** After a name, a number or a parenthesis a minus is an operator; after a string it is not. */
  function MinusAfter(t: Token): L.MinusState {
    if t.Id? || t.RightParen? || (t.Number? && !Negative(t)) then L.Operator else L.Signed
  }

  /** How a token is written, with a blank before it inside delimiters. */
  function Piece(t: Token): string {
    match t
    case Text(text) => text
    case ExpressionOpen => "{{"
    case StatementOpen => "{%"
    case ExpressionClose => " }}"
    case StatementClose => " %}"
    case _ => [' '] + Spelling(t)
  }

  function Render(toks: seq<Token>): string {
    if toks == [] then "" else Piece(toks[0]) + Render(toks[1..])
  }

  // ---- Which token sequences can be written ----

  datatype Mode = Outside | InExpression | InStatement

  function ClosingToken(mode: Mode): Token
    requires !mode.Outside?
  {
    if mode.InExpression? then ExpressionClose else StatementClose
  }

  /** Text with no opening delimiter in it, not even one that its last character starts. */
  predicate TextOk(text: string) {
    text != "" && forall k :: 0 <= k < |text| ==> !L.Opens(CFG, text + "{", k)
  }

  /** Text outside delimiters, never twice in a row; symbols inside; and every minus sign where it is one. */
  predicate Lexable(toks: seq<Token>, mode: Mode, minus: L.MinusState) {
    if toks == [] then mode.Outside?
    else
      var t, rest := toks[0], toks[1..];
      if mode.Outside? then
        match t
        case Text(text) => TextOk(text) && (rest != [] ==> !rest[0].Text?) && Lexable(rest, Outside, minus)
        case ExpressionOpen => Lexable(rest, InExpression, minus)
        case StatementOpen => Lexable(rest, InStatement, minus)
        case _ => false
      else if t == ClosingToken(mode) then Lexable(rest, Outside, minus)
      else Spelled(t) && MinusFits(t, minus) && Lexable(rest, mode, MinusAfter(t))
  }

  // ---- One symbol ----

  /** The spelling of a token, with a blank after it, stands at `i`. */
  predicate Stands(s: string, i: nat, t: Token) {
    At(s, i, Spelling(t) + " ") && Spelled(t)
  }

  function SignKind(symbol: Symbol): L.Kind {
    match symbol
    case EqualSign => L.Equal
    case NotEqualSign => L.NotEqual
    case GreaterThan => L.GreaterThan
    case GreaterEqualSign => L.GreaterEqual
    case LessThan => L.LessThan
    case LessEqualSign => L.LessEqual
    case Plus => L.Plus
    case Minus => L.Minus
    case Times => L.Times
    case Slash => L.Slash
    case PowerSign => L.Power
    case Percent => L.Percent
    case Dot => L.Dot
  }

  function KindOf(t: Token): L.Kind {
    match t
    case Id(_) => L.Id
    case Number(_) => L.Number
    case String(_) => L.String
    case Sign(symbol) => SignKind(symbol)
    case Comma => L.Comma
    case Colon => L.Colon
    case LeftParen => L.LeftParen
    case RightParen => L.RightParen
    case Pipe => L.Pipe
    case _ => L.Unknown
  }

  /** The lexer's kinds and the parser's tokens correspond. */
  lemma KindToken(s: string, i: nat, j: nat, t: Token)
    requires Spelled(t) && i <= j <= |s| && s[i..j] == Spelling(t)
    ensures ToToken(s, L.Lexeme(KindOf(t), i, j)) == t && P.IsSymbol(L.Lexeme(KindOf(t), i, j))
  {
    hide NameText, NumberText, StringText;
    if t.Sign? {
      SignToken(s, i, j, t.symbol);
    }
  }

  lemma SignToken(s: string, i: nat, j: nat, symbol: Symbol)
    requires i <= j <= |s|
    ensures ToToken(s, L.Lexeme(SignKind(symbol), i, j)) == Sign(symbol)
    ensures P.IsSymbol(L.Lexeme(SignKind(symbol), i, j))
  {
  }

  /** What the lexer has to make of the symbol at `i`. */
  predicate Reads(s: string, i: nat, t: Token, minus: L.MinusState)
    requires i < |s|
  {
    L.Symbol(s, i, minus) == (KindOf(t), i + |Spelling(t)|, MinusAfter(t))
  }

  lemma StandsParts(s: string, i: nat, t: Token)
    requires Stands(s, i, t)
    ensures var x := Spelling(t); var j := i + |x|;
      && x != "" && j < |s| && s[j] == ' ' && s[i..j] == x && (forall k :: 0 <= k < |x| ==> s[i + k] == x[k])
  {
    var x := Spelling(t);
    assert |x + " "| == |x| + 1 && (x + " ")[|x|] == ' ';
    AtElement(s, i, x + " ", |x|);
    AtSplit(s, i, x, " ");
    forall k | 0 <= k < |x|
      ensures s[i + k] == x[k]
    {
      AtElement(s, i, x, k);
    }
    hide At;
    SpellingNotEmpty(t);
  }

  lemma SpellingNotEmpty(t: Token)
    requires Spelled(t)
    ensures Spelling(t) != ""
  {
  }

  lemma NameReads(s: string, i: nat, t: Token, minus: L.MinusState)
    requires t.Id? && Stands(s, i, t)
    ensures i < |s| && Reads(s, i, t, minus)
  {
    StandsParts(s, i, t);
    var x, j := t.name, i + |t.name|;
    assert L.IdEnd(s, i + 1) == j by {
      assert forall k :: i < k < j ==> s[k] == x[k - i];
      hide L.IdEnd;
    }
    hide L.IdEnd, At, L.IdChar;
  }

  lemma NumberReads(s: string, i: nat, t: Token, minus: L.MinusState)
    requires t.Number? && Stands(s, i, t) && MinusFits(t, minus)
    ensures i < |s| && Reads(s, i, t, minus)
  {
    StandsParts(s, i, t);
    NumberEnds(s, i, t.text);
    hide L.NumberEnd, L.IdEnd, L.StringEnd, At, L.NumberChar, Stands;
    assert s[i] == t.text[0];
  }

  lemma {:induction false} NumberEndAt(s: string, k: nat, j: nat)
    requires 0 < k <= j < |s| && !L.NumberChar(s[j - 1], s[j])
    requires forall m :: k <= m < j ==> L.NumberChar(s[m - 1], s[m])
    ensures L.NumberEnd(s, k) == j
    decreases j - k
  {
    hide L.NumberChar;
    if k < j {
      NumberEndAt(s, k + 1, j);
    }
  }

  lemma NumberEnds(s: string, i: nat, x: string)
    requires NumberText(x) && i + |x| < |s| && s[i + |x|] == ' ' && forall k :: 0 <= k < |x| ==> s[i + k] == x[k]
    ensures L.NumberEnd(s, i + 1) == i + |x|
  {
    var j := i + |x|;
    forall k | i < k < j
      ensures L.NumberChar(s[k - 1], s[k])
    {
      assert s[k] == x[k - i] && s[k - 1] == x[k - 1 - i];
    }
    NumberEndAt(s, i + 1, j);
  }

  /** Whether a string ends does not depend on what comes after it. */
  lemma {:induction false} StringEndInside(s: string, y: string, i: nat, k: nat, quote: char, escape: bool)
    requires i + |y| <= |s| && (forall m :: 0 <= m < |y| ==> s[i + m] == y[m]) && k <= |y|
    requires L.StringEnd(y, k, quote, escape) < |y|
    ensures L.StringEnd(s, i + k, quote, escape) == i + L.StringEnd(y, k, quote, escape)
    decreases |y| - k
  {
    assert k < |y| && s[i + k] == y[k];
    if y[k] == '\\' {
      StringEndInside(s, y, i, k + 1, quote, !escape);
    } else if escape || y[k] != quote {
      StringEndInside(s, y, i, k + 1, quote, false);
    }
  }

  lemma StringReads(s: string, i: nat, t: Token, minus: L.MinusState)
    requires t.String? && Stands(s, i, t)
    ensures i < |s| && Reads(s, i, t, minus)
  {
    StandsParts(s, i, t);
    var y := t.text + " ";
    assert forall m :: 0 <= m < |y| ==> s[i + m] == y[m];
    StringEndInside(s, y, i, 1, '"', false);
    hide L.StringEnd, At;
  }

  lemma ShortSignReads(s: string, i: nat, t: Token, minus: L.MinusState)
    requires t.Sign? && |SignText(t.symbol)| == 1 && Stands(s, i, t) && MinusFits(t, minus)
    ensures i < |s| && Reads(s, i, t, minus)
  {
    StandsParts(s, i, t);
    hide L.IdEnd, L.NumberEnd, L.StringEnd, At, Stands;
    assert s[i] == SignText(t.symbol)[0] && s[i + 1] == ' ';
  }

  lemma LongSignReads(s: string, i: nat, t: Token, minus: L.MinusState)
    requires t.Sign? && |SignText(t.symbol)| == 2 && Stands(s, i, t) && MinusFits(t, minus)
    ensures i < |s| && Reads(s, i, t, minus)
  {
    StandsParts(s, i, t);
    hide L.IdEnd, L.NumberEnd, L.StringEnd, At, Stands;
    assert s[i] == SignText(t.symbol)[0] && s[i + 1] == SignText(t.symbol)[1];
  }

  lemma PunctuationReads(s: string, i: nat, t: Token, minus: L.MinusState)
    requires !t.Id? && !t.Number? && !t.String? && !t.Sign? && Stands(s, i, t)
    ensures i < |s| && Reads(s, i, t, minus)
  {
    StandsParts(s, i, t);
    hide L.IdEnd, L.NumberEnd, L.StringEnd, At;
  }

  lemma SignLength(symbol: Symbol)
    ensures |SignText(symbol)| == 1 || |SignText(symbol)| == 2
  {
  }

  /** Every symbol is read as it is spelled. */
  lemma SymbolReads(s: string, i: nat, t: Token, minus: L.MinusState)
    requires Stands(s, i, t) && MinusFits(t, minus)
    ensures i < |s|
    ensures var (kind, end, after) := L.Symbol(s, i, minus);
      && end == i + |Spelling(t)| && after == MinusAfter(t) && P.IsSymbol(L.Lexeme(kind, i, end))
      && ToToken(s, L.Lexeme(kind, i, end)) == t
  {
    StandsParts(s, i, t);
    KindToken(s, i, i + |Spelling(t)|, t);
    hide L.Symbol, ToToken, Spelling, KindOf, MinusAfter, MinusFits, SignText;
    if t.Id? {
      NameReads(s, i, t, minus);
    } else if t.Number? {
      NumberReads(s, i, t, minus);
    } else if t.String? {
      StringReads(s, i, t, minus);
    } else if t.Sign? {
      SignLength(t.symbol);
      if |SignText(t.symbol)| == 1 {
        ShortSignReads(s, i, t, minus);
      } else {
        LongSignReads(s, i, t, minus);
      }
    } else {
      PunctuationReads(s, i, t, minus);
    }
  }

  // ---- One scan ----

  /** The lexer stands where the parser's mode says; after a text it may know already what opens next. */
  predicate InMode(l: L.Lex, mode: Mode, toks: seq<Token>) {
    match mode
    case InExpression => l.state == L.ExpressionBody
    case InStatement => l.state == L.StatementBody
    case Outside =>
      || l.state == L.TextState
      || (toks != [] && toks[0] == ExpressionOpen && l.state == L.ExpressionStart)
      || (toks != [] && toks[0] == StatementOpen && l.state == L.StatementStart)
  }

  function ClosingIn(mode: Mode): L.Closing
    requires !mode.Outside?
  {
    L.ClosingOf(CFG, if mode.InExpression? then L.ExpressionBody else L.StatementBody)
  }

  /** No closing delimiter stands where a symbol does. */
  lemma NoCloseAtSymbol(s: string, i: nat, t: Token, mode: Mode)
    requires !mode.Outside? && Stands(s, i, t)
    ensures i < |s| && s[i] !in " \t\r\n"
    ensures var c := ClosingIn(mode); !L.StartsAt(s, i, c.close) && !L.StartsAt(s, i, c.closeTrim)
  {
    StandsParts(s, i, t);
    SpellingStart(t);
    var x := Spelling(t);
    assert s[i] == x[0];
    if |x| > 1 {
      assert s[i + 1] == x[1];
    }
    hide Stands, Spelling, Spelled;
    NotThere(s, i, "}}");
    NotThere(s, i, "-}}");
    NotThere(s, i, "%}");
    NotThere(s, i, "-%}");
  }

  lemma StartsWith(s: string, i: nat, d: string)
    requires L.StartsAt(s, i, d)
    ensures forall k :: 0 <= k < |d| ==> s[i + k] == d[k]
  {
    forall k | 0 <= k < |d|
      ensures s[i + k] == d[k]
    {
      assert s[i..i + |d|][k] == s[i + k];
    }
  }

  lemma NotThere(s: string, i: nat, d: string)
    requires i + 1 < |s| && |d| >= 2 && (s[i] != d[0] || s[i + 1] != d[1])
    ensures !L.StartsAt(s, i, d)
  {
    if L.StartsAt(s, i, d) {
      StartsWith(s, i, d);
    }
  }

  /** How symbols start: with no blank and no brace; and after a minus or a percent sign no closing comes. */
  lemma SpellingStart(t: Token)
    requires Spelled(t)
    ensures var x := Spelling(t);
      && x != "" && x[0] !in " \t\r\n}"
      && (|x| > 1 && (x[0] == '-' || x[0] == '%') ==> x[1] != '}' && x[1] != '%')
  {
    if t.Number? && |t.text| > 1 {
      assert L.NumberChar(t.text[0], t.text[1]);
    }
  }

  lemma ScanSymbolToken(s: string, l: L.Lex, t: Token, mode: Mode)
    requires !mode.Outside? && InMode(l, mode, [t]) && At(s, l.pos, Piece(t)) && Stands(s, l.pos + 1, t)
    requires MinusFits(t, l.minus) && t != ClosingToken(mode)
    ensures l.pos < |s| && L.Reachable(CFG, s, l)
    ensures var (x, n) := L.Scan(CFG, s, l);
      && x.kind != L.Eof && x.start <= x.end <= |s| && ToToken(s, x) == t
      && n == L.Lex(l.state, MinusAfter(t), l.pos + |Piece(t)|)
  {
    var i := l.pos + 1;
    PieceOfSymbol(t);
    AtElement(s, l.pos, Piece(t), 0);
    SymbolReads(s, i, t, l.minus);
    NoCloseAtSymbol(s, i, t, mode);
    hide At, Stands, Piece, L.Symbol, L.StartsAt, ToToken, Spelling;
    assert L.Scan(CFG, s, l) == L.ScanBody(ClosingIn(mode), s, l, l.pos);
    assert L.ScanBody(ClosingIn(mode), s, l, l.pos) == L.ScanBody(ClosingIn(mode), s, l, i);
  }

  lemma PieceOfSymbol(t: Token)
    requires Spelled(t)
    ensures Piece(t) == [' '] + Spelling(t) && |Piece(t)| == 1 + |Spelling(t)|
  {
  }

  lemma ClosingStands(s: string, i: nat, mode: Mode)
    requires !mode.Outside? && At(s, i, Piece(ClosingToken(mode)))
    ensures var c := ClosingIn(mode);
      && i + 2 < |s| && s[i] == ' ' && s[i + 1] !in " \t\r" && |c.close| == 2 && c.closeTrim != ""
      && L.StartsAt(s, i + 1, c.close) && !L.StartsAt(s, i + 1, c.closeTrim)
      && s[i + 1..i + 3] == c.close && |Piece(ClosingToken(mode))| == 3
  {
    var c := ClosingIn(mode);
    assert Piece(ClosingToken(mode)) == [' '] + c.close && |c.close| == 2;
    AtElement(s, i, Piece(ClosingToken(mode)), 0);
    AtSplit(s, i, [' '], c.close);
    AtElement(s, i + 1, c.close, 0);
    AtElement(s, i + 1, c.close, 1);
    NotThere(s, i + 1, c.closeTrim);
  }

  lemma ScanClosing(s: string, l: L.Lex, mode: Mode)
    requires !mode.Outside? && InMode(l, mode, []) && At(s, l.pos, Piece(ClosingToken(mode)))
    ensures l.pos < |s| && L.Reachable(CFG, s, l)
    ensures var (x, n) := L.Scan(CFG, s, l);
      && x.kind != L.Eof && x.start <= x.end <= |s| && ToToken(s, x) == ClosingToken(mode)
      && n == L.Lex(L.TextState, l.minus, l.pos + |Piece(ClosingToken(mode))|)
  {
    ClosingStands(s, l.pos, mode);
    hide At, L.StartsAt, Piece;
    ScanFromBody(s, l, mode);
    BodyCloses(ClosingIn(mode), s, l);
    ClosingKind(mode);
    hide ClosingIn, L.ScanBody, L.Scan;
  }

  lemma ClosingKind(mode: Mode)
    requires !mode.Outside?
    ensures var c := ClosingIn(mode);
      !c.trim && c.kind == if mode.InExpression? then L.ExpressionClose else L.StatementClose
  {
  }

  lemma ScanFromBody(s: string, l: L.Lex, mode: Mode)
    requires !mode.Outside? && InMode(l, mode, []) && l.pos < |s|
    ensures L.Reachable(CFG, s, l) && L.Scan(CFG, s, l) == L.ScanBody(ClosingIn(mode), s, l, l.pos)
  {
    hide L.ScanBody;
  }

  /** A blank is skipped, and then the closing delimiter is met. */
  lemma BodyCloses(c: L.Closing, s: string, l: L.Lex)
    requires var i := l.pos + 1; i < |s| && s[l.pos] == ' ' && s[i] !in " \t\r" && L.StartsAt(s, i, c.close)
    requires !L.StartsAt(s, l.pos + 1, c.closeTrim) && !c.trim
    ensures var end := l.pos + 1 + |c.close|;
      L.ScanBody(c, s, l, l.pos) == (L.Lexeme(c.kind, l.pos + 1, end), L.Lex(L.TextState, l.minus, end))
  {
    hide L.StartsAt;
    assert L.ScanBody(c, s, l, l.pos) == L.ScanBody(c, s, l, l.pos + 1);
  }

  // ---- Text and opening delimiters ----

  /** What can stand at the end of a text: nothing, or a brace that opens something. */
  predicate BraceOrEnd(s: string, i: nat) {
    i <= |s| && (i < |s| ==> s[i] == '{')
  }

  /** Inside a text that is fit for it, nothing opens. */
  lemma NothingOpensInText(s: string, i: nat, text: string, k: nat)
    requires TextOk(text) && At(s, i, text) && BraceOrEnd(s, i + |text|) && k < |text|
    ensures !L.Opens(CFG, s, i + k)
  {
    var y := text + "{";
    forall d | |d| == 2 && L.StartsAt(s, i + k, d)
      ensures L.StartsAt(y, k, d)
    {
      TwoCharacters(s, i, text, k, d);
    }
    AtElement(s, i, text, k);
    if k > 0 {
      AtElement(s, i, text, k - 1);
    }
    assert !L.Opens(CFG, y, k);
    hide At, L.StartsAt;
  }

  lemma TwoCharacters(s: string, i: nat, text: string, k: nat, d: string)
    requires At(s, i, text) && BraceOrEnd(s, i + |text|) && k < |text| && |d| == 2 && L.StartsAt(s, i + k, d)
    ensures L.StartsAt(text + "{", k, d)
  {
    var y := text + "{";
    AtElement(s, i, text, k);
    assert d == [s[i + k], s[i + k + 1]];
    if k + 1 < |text| {
      AtElement(s, i, text, k + 1);
    }
    assert y[k] == s[i + k] && y[k + 1] == s[i + k + 1];
    assert y[k..k + 2] == [y[k], y[k + 1]];
  }

  lemma {:induction false} FirstOpenAfter(s: string, i: nat, j: nat)
    requires i <= j <= |s| && (forall k :: i <= k < j ==> !L.Opens(CFG, s, k)) && (j < |s| ==> L.Opens(CFG, s, j))
    ensures L.FirstOpen(CFG, s, i) == j
  {
    hide L.Opens;
    var r := L.FirstOpen(CFG, s, i);
    hide L.FirstOpen;
  }

  /** The delimiter of a token that opens something. */
  predicate OpensHere(s: string, i: nat, t: Token) {
    (t == ExpressionOpen || t == StatementOpen) && At(s, i, Piece(t) + " ")
  }

  lemma OpenParts(s: string, i: nat, t: Token)
    requires OpensHere(s, i, t)
    ensures i + 2 < |s| && s[i] == '{' && s[i + 1] == (if t.ExpressionOpen? then '{' else '%') && s[i + 2] == ' '
    ensures L.StartsAt(s, i, Piece(t)) && |Piece(t)| == 2
  {
    var y := Piece(t) + " ";
    AtElement(s, i, y, 0);
    AtElement(s, i, y, 1);
    AtElement(s, i, y, 2);
    assert s[i..i + 2] == [s[i], s[i + 1]];
  }

  /** The state after the delimiter of `t` has been found, with no blank stripped before it. */
  function StartOf(t: Token): L.State {
    if t.ExpressionOpen? then L.ExpressionStart else L.StatementStart
  }

  lemma OpenStateAt(s: string, i: nat, t: Token)
    requires OpensHere(s, i, t)
    ensures L.Opens(CFG, s, i) && L.OpenState(CFG, s, i) == (StartOf(t), false)
  {
    OpenParts(s, i, t);
    hide At;
    if t.StatementOpen? {
      NotThere(s, i, "{{");
      ThirdDiffers(s, i, "{%+");
      ThirdDiffers(s, i, "{%-");
    } else {
      ThirdDiffers(s, i, "{{-");
    }
    hide L.StartsAt;
  }

  lemma ThirdDiffers(s: string, i: nat, d: string)
    requires i + 2 < |s| && |d| == 3 && s[i + 2] != d[2]
    ensures !L.StartsAt(s, i, d)
  {
    if L.StartsAt(s, i, d) {
      StartsWith(s, i, d);
    }
  }

  /** Text up to the next delimiter, or up to the end. */
  lemma ScanTextToken(s: string, l: L.Lex, text: string, next: Option<Token>)
    requires l.state == L.TextState && TextOk(text) && At(s, l.pos, text)
    requires if next.Some? then OpensHere(s, l.pos + |text|, next.value) else l.pos + |text| == |s|
    ensures l.pos < |s| && L.Reachable(CFG, s, l)
    ensures var (x, n) := L.Scan(CFG, s, l);
      && x == L.Lexeme(L.Text, l.pos, l.pos + |text|)
      && n == L.Lex(if next.Some? then StartOf(next.value) else L.TextState, l.minus, l.pos + |text|)
  {
    var j := l.pos + |text|;
    AtBound(s, l.pos, text);
    if next.Some? {
      OpenParts(s, j, next.value);
      OpenStateAt(s, j, next.value);
    }
    forall k | l.pos <= k < j
      ensures !L.Opens(CFG, s, k)
    {
      NothingOpensInText(s, l.pos, text, k - l.pos);
    }
    FirstOpenAfter(s, l.pos, j);
    hide At, L.Opens, L.OpenState, L.FirstOpen, OpensHere, TextOk;
  }

  /** The opening delimiter, whether the lexer has seen it already or not. */
  lemma ScanOpening(s: string, l: L.Lex, t: Token)
    requires OpensHere(s, l.pos, t) && (l.state == L.TextState || l.state == StartOf(t))
    ensures l.pos < |s| && L.Reachable(CFG, s, l)
    ensures var (x, n) := L.Scan(CFG, s, l);
      && x.kind == (if t.ExpressionOpen? then L.ExpressionOpen else L.StatementOpen)
      && x.start <= x.end <= |s|
      && n == L.Lex(if t.ExpressionOpen? then L.ExpressionBody else L.StatementBody, l.minus, l.pos + |Piece(t)|)
  {
    OpenParts(s, l.pos, t);
    OpenStateAt(s, l.pos, t);
    FirstOpenAfter(s, l.pos, l.pos);
    hide At, L.Opens, L.OpenState, L.FirstOpen, OpensHere;
  }

  // ---- All scans ----

  lemma TokensStep(s: string, l: L.Lex, t: Token, rest: seq<Token>)
    requires CFG.Valid() && L.Reachable(CFG, s, l)
    requires var (x, n) := L.Scan(CFG, s, l);
      x.kind != L.Eof && x.start <= x.end <= |s| && ToToken(s, x) == t && L.Reachable(CFG, s, n) && Tokens(s, n) == rest
    ensures Tokens(s, l) == [t] + rest
  {
    hide L.Scan, L.Reachable, ToToken;
  }

  lemma InsideStartsWithBlank(toks: seq<Token>, mode: Mode, minus: L.MinusState)
    requires !mode.Outside? && Lexable(toks, mode, minus)
    ensures Render(toks) != "" && Render(toks)[0] == ' '
  {
    hide Spelling, MinusFits, MinusAfter;
  }

  lemma RenderOpens(s: string, i: nat, toks: seq<Token>, minus: L.MinusState)
    requires toks != [] && !toks[0].Text? && Lexable(toks, Outside, minus) && At(s, i, Render(toks))
    ensures OpensHere(s, i, toks[0])
  {
    var t, rest := toks[0], toks[1..];
    var mode := if t.ExpressionOpen? then InExpression else InStatement;
    InsideStartsWithBlank(rest, mode, minus);
    var more := Render(rest);
    assert Render(toks) == Piece(t) + more;
    assert Piece(t) + more == (Piece(t) + " ") + more[1..];
    AtSplit(s, i, Piece(t) + " ", more[1..]);
    hide At;
  }

  /** The rest of the text stands after the piece of the first token. */
  lemma RenderRest(s: string, i: nat, toks: seq<Token>)
    requires toks != [] && At(s, i, Render(toks)) && i + |Render(toks)| == |s|
    ensures At(s, i, Piece(toks[0])) && At(s, i + |Piece(toks[0])|, Render(toks[1..]))
    ensures i + |Piece(toks[0])| + |Render(toks[1..])| == |s|
  {
    hide At, Piece;
    AtSplit(s, i, Piece(toks[0]), Render(toks[1..]));
  }

  lemma LexNothing(s: string, mode: Mode, l: L.Lex)
    requires l.pos + |Render([])| == |s| && Lexable([], mode, l.minus) && InMode(l, mode, [])
    ensures CFG.Valid() && L.Reachable(CFG, s, l) && Tokens(s, l) == []
  {
    DefaultValid();
  }

  lemma DefaultValid()
    ensures CFG.Valid()
  {
    L.DefaultIsValid();
  }

  lemma {:induction false} LexRendered(s: string, toks: seq<Token>, mode: Mode, l: L.Lex)
    requires At(s, l.pos, Render(toks)) && l.pos + |Render(toks)| == |s|
    requires Lexable(toks, mode, l.minus) && InMode(l, mode, toks)
    ensures CFG.Valid() && L.Reachable(CFG, s, l) && Tokens(s, l) == toks
    decreases |toks|
  {
    hide *;
    if toks == [] {
      LexNothing(s, mode, l);
    } else {
      RenderRest(s, l.pos, toks);
      assert toks == [toks[0]] + toks[1..];
      if mode.Outside? {
        LexOutside(s, toks, toks[0], toks[1..], l);
      } else {
        LexInside(s, toks, toks[0], toks[1..], mode, l);
      }
    }
  }

  lemma {:induction false} LexInside(s: string, toks: seq<Token>, t: Token, rest: seq<Token>, mode: Mode, l: L.Lex)
    requires toks == [t] + rest && !mode.Outside? && Lexable(toks, mode, l.minus) && InMode(l, mode, toks)
    requires At(s, l.pos, Piece(t)) && At(s, l.pos + |Piece(t)|, Render(rest))
    requires l.pos + |Piece(t)| + |Render(rest)| == |s|
    ensures CFG.Valid() && L.Reachable(CFG, s, l) && Tokens(s, l) == toks
    decreases |toks|, 0
  {
    hide *;
    InsideParts(toks, t, rest, mode, l.minus);
    SameModeInside(l, mode, toks);
    DefaultValid();
    if t == ClosingToken(mode) {
      ScanClosing(s, l, mode);
      NextAfterClosing(l, mode, rest, L.Scan(CFG, s, l).1);
      LexRendered(s, rest, Outside, L.Scan(CFG, s, l).1);
      TokensStep(s, l, t, rest);
    } else {
      SymbolStands(s, l.pos, t, rest, mode, MinusAfter(t));
      ScanSymbolToken(s, l, t, mode);
      NextInside(l, mode, rest, L.Scan(CFG, s, l).1);
      LexRendered(s, rest, mode, L.Scan(CFG, s, l).1);
      TokensStep(s, l, t, rest);
    }
  }

  lemma InsideParts(toks: seq<Token>, t: Token, rest: seq<Token>, mode: Mode, minus: L.MinusState)
    requires toks == [t] + rest && !mode.Outside? && Lexable(toks, mode, minus)
    ensures if t == ClosingToken(mode) then Lexable(rest, Outside, minus)
      else Spelled(t) && MinusFits(t, minus) && Lexable(rest, mode, MinusAfter(t))
  {
    assert toks[0] == t && toks[1..] == rest;
    hide Spelled, MinusFits, MinusAfter;
  }

  lemma SameModeInside(l: L.Lex, mode: Mode, toks: seq<Token>)
    requires !mode.Outside? && InMode(l, mode, toks)
    ensures forall ts :: InMode(l, mode, ts)
  {
  }

  lemma NextAfterClosing(l: L.Lex, mode: Mode, rest: seq<Token>, n: L.Lex)
    requires n.state == L.TextState
    ensures InMode(n, Outside, rest)
  {
  }

  lemma NextInside(l: L.Lex, mode: Mode, rest: seq<Token>, n: L.Lex)
    requires !mode.Outside? && InMode(l, mode, rest) && n.state == l.state
    ensures InMode(n, mode, rest)
  {
  }

  /** After a symbol comes a blank, since its delimiter is still to be closed. */
  lemma SymbolStands(s: string, i: nat, t: Token, rest: seq<Token>, mode: Mode, minus: L.MinusState)
    requires Spelled(t) && !mode.Outside? && Lexable(rest, mode, minus)
    requires At(s, i, Piece(t)) && At(s, i + |Piece(t)|, Render(rest))
    ensures Stands(s, i + 1, t)
  {
    PieceOfSymbol(t);
    InsideStartsWithBlank(rest, mode, minus);
    BlankFollows(s, i, Spelling(t), Render(rest));
    hide *;
  }

  lemma BlankFollows(s: string, i: nat, x: string, more: string)
    requires At(s, i, [' '] + x) && At(s, i + 1 + |x|, more) && more != "" && more[0] == ' '
    ensures At(s, i + 1, x + " ")
  {
    AtSplit(s, i, [' '], x);
    AtElement(s, i + 1 + |x|, more, 0);
    var j := i + 1 + |x|;
    assert s[i + 1..j + 1] == s[i + 1..j] + [s[j]];
  }

  lemma {:induction false} LexOutside(s: string, toks: seq<Token>, t: Token, rest: seq<Token>, l: L.Lex)
    requires toks == [t] + rest && Lexable(toks, Outside, l.minus) && InMode(l, Outside, toks)
    requires At(s, l.pos, Render(toks)) && At(s, l.pos, Piece(t)) && At(s, l.pos + |Piece(t)|, Render(rest))
    requires l.pos + |Piece(t)| + |Render(rest)| == |s|
    ensures CFG.Valid() && L.Reachable(CFG, s, l) && Tokens(s, l) == toks
    decreases |toks|, 0
  {
    hide *;
    OutsideParts(toks, t, rest, l);
    DefaultValid();
    if t.Text? {
      var next := if rest == [] then None else Some(rest[0]);
      if rest != [] {
        RenderOpens(s, l.pos + |Piece(t)|, rest, l.minus);
      }
      TextPiece(t, rest);
      ScanTextToken(s, l, t.text, next);
      TextLexeme(s, l, t);
      NextAfterText(rest, L.Scan(CFG, s, l).1, l.minus);
      LexRendered(s, rest, Outside, L.Scan(CFG, s, l).1);
      TokensStep(s, l, t, rest);
    } else {
      var mode := if t.ExpressionOpen? then InExpression else InStatement;
      RenderOpens(s, l.pos, toks, l.minus);
      ScanOpening(s, l, t);
      OpeningLexeme(s, l, t, rest, mode);
      LexRendered(s, rest, mode, L.Scan(CFG, s, l).1);
      TokensStep(s, l, t, rest);
    }
  }

  lemma OutsideParts(toks: seq<Token>, t: Token, rest: seq<Token>, l: L.Lex)
    requires toks == [t] + rest && Lexable(toks, Outside, l.minus) && InMode(l, Outside, toks)
    ensures t.Text? || t == ExpressionOpen || t == StatementOpen
    ensures t.Text? ==> l.state == L.TextState && TextOk(t.text) && (rest != [] ==> !rest[0].Text?)
    ensures t.Text? ==> Lexable(rest, Outside, l.minus)
    ensures !t.Text? ==> Lexable(rest, if t.ExpressionOpen? then InExpression else InStatement, l.minus)
    ensures !t.Text? ==> toks[0] == t && (l.state == L.TextState || l.state == StartOf(t))
  {
    assert toks[0] == t && toks[1..] == rest;
    hide TextOk;
  }

  lemma TextPiece(t: Token, rest: seq<Token>)
    requires t.Text?
    ensures Piece(t) == t.text && (rest == [] ==> Render(rest) == "")
  {
  }

  lemma TextLexeme(s: string, l: L.Lex, t: Token)
    requires t.Text? && At(s, l.pos, t.text)
    ensures l.pos + |t.text| <= |s| && ToToken(s, L.Lexeme(L.Text, l.pos, l.pos + |t.text|)) == t
  {
  }

  lemma NextAfterText(rest: seq<Token>, n: L.Lex, minus: L.MinusState)
    requires rest != [] ==> !rest[0].Text? && Lexable(rest, Outside, minus)
    requires n.state == if rest == [] then L.TextState else StartOf(rest[0])
    ensures InMode(n, Outside, rest)
  {
  }

  lemma OpeningLexeme(s: string, l: L.Lex, t: Token, rest: seq<Token>, mode: Mode)
    requires CFG.Valid() && L.Reachable(CFG, s, l)
    requires t == ExpressionOpen || t == StatementOpen
    requires mode == if t.ExpressionOpen? then InExpression else InStatement
    requires var (x, n) := L.Scan(CFG, s, l);
      && x.kind == (if t.ExpressionOpen? then L.ExpressionOpen else L.StatementOpen) && x.start <= x.end <= |s|
      && n.state == if t.ExpressionOpen? then L.ExpressionBody else L.StatementBody
    ensures ToToken(s, L.Scan(CFG, s, l).0) == t && InMode(L.Scan(CFG, s, l).1, mode, rest)
    ensures L.Scan(CFG, s, l).0.kind != L.Eof
  {
    hide L.Scan;
  }

  /** The lexer gives back the tokens of a text that is written from tokens. */
  lemma LexerRoundTrip(toks: seq<Token>)
    requires Lexable(toks, Outside, L.Signed)
    ensures CFG.Valid() && Tokens(Render(toks), L.START) == toks
  {
    hide Lexable, Render;
    AtWhole(Render(toks));
    LexRendered(Render(toks), toks, Outside, L.START);
  }

  // ---- From the source text to the tree ----

  /** The whole front end: the tokens of the source text, parsed. */
  function Parse(known: Functions, source: string): Outcome<Memory> {
    L.DefaultIsValid();
    ParseInto(known, Tokens(source, L.START), 0, EMPTY_MEMORY)
  }

  /** A template that is written out and read again is the same template. */
  lemma SourceRoundTrip(b: seq<T.Stmt>, known: Functions)
    requires T.BlockOk(b, known) && Lexable(T.PrintBlock(b), Outside, L.Signed)
    ensures var r := Parse(known, Render(T.PrintBlock(b))); r.Done? && M.Represents(r.value, b)
  {
    hide Lexable, Render, T.BlockOk, T.PrintBlock, ParseInto, M.Represents, Tokens;
    LexerRoundTrip(T.PrintBlock(b));
    M.TemplateRoundTrip(b, known);
  }
}
