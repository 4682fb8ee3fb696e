/**
 Which templates can be written at all: a template whose names, numbers, strings and texts are spelled rightly comes
 from some source text exactly if every subtraction and every negative number fits where it stands. For the others
 no text has these tokens, however it is written.
 */
module InjaMinusExact {
  import opened Sequences
  import opened InjaSyntax
  import opened InjaExpression
  import opened InjaStatements
  import opened InjaTemplateProof
  import opened InjaSourceText
  import opened InjaWritable
  import L = InjaLexer
  import P = InjaLexerProof

  // ---- Sequences of tokens ----

  /** Tokens that do not stand inside delimiters leave a minus sign what it is. */
  predicate Inside(t: Token) {
    t.Id? || t.Number? || t.String? || t.Sign? || t.Comma? || t.Colon? || t.LeftParen? || t.RightParen? || t.Pipe?
    || t.Unknown?
  }

  /** A closing bracket or brace, which the model keeps as an unknown token, ends an operand too. */
  function Next(t: Token, minus: L.MinusState): L.MinusState {
    if t.Unknown? && t.text != "" && t.text[0] in "]}" then L.Operator
    else if Inside(t) then MinusAfter(t)
    else minus
  }

  /** Every subtraction and every negative number fits what a minus sign is before it. */
  predicate MinusOk(toks: seq<Token>, minus: L.MinusState) {
    toks != [] ==> MinusFits(toks[0], minus) && MinusOk(toks[1..], Next(toks[0], minus))
  }

  function MinusEnd(toks: seq<Token>, minus: L.MinusState): L.MinusState {
    if toks == [] then minus else MinusEnd(toks[1..], Next(toks[0], minus))
  }

  lemma {:induction false} MinusAppend(a: seq<Token>, b: seq<Token>, minus: L.MinusState)
    ensures MinusOk(a + b, minus) <==> MinusOk(a, minus) && MinusOk(b, MinusEnd(a, minus))
    ensures MinusEnd(a + b, minus) == MinusEnd(b, MinusEnd(a, minus))
  {
    hide MinusFits, Next;
    if a == [] {
      assert a + b == b;
    } else {
      MinusAppend(a[1..], b, Next(a[0], minus));
      assert (a + b)[1..] == a[1..] + b;
    }
  }

  lemma MinusOne(t: Token, minus: L.MinusState)
    ensures MinusOk([t], minus) <==> MinusFits(t, minus)
    ensures MinusEnd([t], minus) == Next(t, minus)
  {
    hide MinusFits, Next;
  }

  lemma MinusCons(t: Token, ts: seq<Token>, minus: L.MinusState)
    ensures MinusOk([t] + ts, minus) <==> MinusFits(t, minus) && MinusOk(ts, Next(t, minus))
    ensures MinusEnd([t] + ts, minus) == MinusEnd(ts, Next(t, minus))
  {
    hide MinusFits, Next;
    assert ([t] + ts)[1..] == ts;
  }

  // ---- Every run of the lexer ----

  /** The kinds of closing brackets and braces are those of their characters. */
  predicate BracketsTold(s: string, t: L.Lexeme) {
    P.IsSymbol(t) ==>
      t.start < t.end <= |s| && (t.kind in {L.RightBracket, L.RightBrace} <==> s[t.start] in "]}")
  }

  lemma SymbolBracket(s: string, i: nat, minus: L.MinusState)
    requires i < |s|
    ensures BracketsTold(s, L.Lexeme(L.Symbol(s, i, minus).0, i, L.Symbol(s, i, minus).1))
  {
    hide L.IdEnd, L.NumberEnd, L.StringEnd;
  }

  lemma {:induction false} BodyBracket(c: L.Closing, s: string, l: L.Lex, i: nat)
    requires i <= |s| && c.kind in {L.ExpressionClose, L.LineStatementClose, L.StatementClose}
    ensures BracketsTold(s, L.ScanBody(c, s, l, i).0)
    decreases |s| - i
  {
    if i < |s| {
      SymbolBracket(s, i, l.minus);
      if s[i] in " \t\r" || s[i] == '\n' {
        BodyBracket(c, s, l, i + 1);
      }
      hide L.Symbol, L.SkipAllBlanks, L.SkipToNextLine, L.StartsAt;
    }
  }

  lemma ScanBracket(s: string, l: L.Lex)
    requires CFG.Valid() && L.Reachable(CFG, s, l)
    ensures BracketsTold(s, L.Scan(CFG, s, l).0)
  {
    if l.pos < |s| && l.state.IsBody() && !l.state.CommentBody? {
      BodyBracket(L.ClosingOf(CFG, l.state), s, l, l.pos);
    }
    hide L.ScanBody, L.OpenState, L.FirstOpen;
  }

  lemma LexemeFits(s: string, x: L.Lexeme, minus: L.MinusState)
    requires x.start <= x.end <= |s| && x.kind != L.Eof && BracketsTold(s, x)
    requires P.IsSymbol(x) ==> (x.kind == L.Minus <==> s[x.start] == '-' && minus == L.Operator)
    ensures MinusFits(ToToken(s, x), minus) && Next(ToToken(s, x), minus) == P.MinusAfter(s, x, minus)
  {
    if x.start < x.end {
      assert s[x.start..x.end][0] == s[x.start];
    }
  }

  /** What the lexer reads always fits, whatever the source text is. */
  lemma {:induction false} RunFits(s: string, l: L.Lex)
    requires CFG.Valid() && L.Reachable(CFG, s, l)
    ensures MinusOk(Tokens(s, l), l.minus)
    decreases |s| - l.pos
  {
    P.ScanIsGood(CFG, s, l);
    P.ScanMinus(CFG, s, l);
    ScanBracket(s, l);
    hide L.Scan, L.Reachable, P.IsSymbol, P.MinusAfter, ToToken, MinusFits, Next;
    var (x, n) := L.Scan(CFG, s, l);
    if x.kind != L.Eof {
      LexemeFits(s, x, l.minus);
      RunFits(s, n);
      assert Tokens(s, l) == [ToToken(s, x)] + Tokens(s, n);
      MinusCons(ToToken(s, x), Tokens(s, n), l.minus);
    }
  }

  // ---- Expressions ----

  /** Names, numbers and strings are spelled as the lexer reads them. */
  predicate SpeltExpr(e: Expr) {
    match e
    case Literal(t) => Spelled(t) && (t.Id? || t.Number? || t.String?)
    case Data(name) => NameText(name)
    case Prefix(a) => SpeltExpr(a)
    case Binary(_, l, r) => SpeltExpr(l) && SpeltExpr(r)
    case Call(name, args) => NameText(name) && forall i :: 0 <= i < |args| ==> SpeltExpr(args[i])
  }

  /** The state after a printed expression, and that it fits only if it can be written. */
  lemma {:induction false} ExpressionMinus(e: Expr, minus: L.MinusState)
    requires SpeltExpr(e)
    ensures MinusEnd(Print(e), minus) == EndOf(e)
    ensures MinusOk(Print(e), minus) ==> Writable(e) && Fits(e, false, minus)
    decreases e, 1
  {
    match e
    case Literal(t) =>
      MinusOne(t, minus);
      hide Spelled, Negative;
    case Data(name) =>
      MinusOne(Id(name), minus);
      hide NameText;
    case Prefix(_) => PrefixMinus(e, minus);
    case Binary(_, _, _) => BinaryMinus(e, minus);
    case Call(_, _) => CallMinus(e, minus);
  }

  lemma {:induction false} OperandMinus(e: Expr, parens: bool, minus: L.MinusState)
    requires SpeltExpr(e)
    ensures MinusEnd(Parenthesized(Print(e), parens), minus) == OperandEnd(e, parens)
    ensures MinusOk(Parenthesized(Print(e), parens), minus) ==> Writable(e) && Fits(e, parens, minus)
    decreases e, 2
  {
    hide Print, SpeltExpr, Writable, EndOf, StartsNegative, MinusOk, MinusEnd;
    if parens {
      ExpressionMinus(e, L.Signed);
      MinusAppend(Print(e), [RightParen], L.Signed);
      MinusOne(RightParen, MinusEnd(Print(e), L.Signed));
      MinusCons(LeftParen, Print(e) + [RightParen], minus);
      assert Parenthesized(Print(e), true) == [LeftParen] + (Print(e) + [RightParen]);
    } else {
      ExpressionMinus(e, minus);
    }
  }

  /** Operators leave the state that they are printed with. */
  lemma NextOperator(op: Op, minus: L.MinusState)
    ensures Next(OperatorToken(op), minus) == MinusAfter(OperatorToken(op))
    ensures op == Not ==> MinusAfter(OperatorToken(op)) == L.Operator
    ensures MinusFits(OperatorToken(op), minus) ==> (op == Subtract ==> minus == L.Operator)
  {
  }

  lemma {:induction false} PrefixMinus(e: Expr, minus: L.MinusState)
    requires e.Prefix? && SpeltExpr(e)
    ensures MinusEnd(Print(e), minus) == EndOf(e)
    ensures MinusOk(Print(e), minus) ==> Writable(e) && Fits(e, false, minus)
    decreases e, 0
  {
    PrintPrefix(e);
    hide Print, OperatorToken, RightNeedsParens, MinusOk, MinusEnd, MinusAfter, MinusFits, Next, OperandEnd,
      Parenthesized;
    var operand := Parenthesized(Print(e.arg), RightNeedsParens(Not, e.arg));
    OperandMinus(e.arg, RightNeedsParens(Not, e.arg), L.Operator);
    NextOperator(Not, minus);
    MinusCons(OperatorToken(Not), operand, minus);
  }

  lemma PrintBinary(e: Expr)
    requires e.Binary?
    ensures Print(e) == Parenthesized(Print(e.left), LeftNeedsParens(e.op, e.left))
      + ([OperatorToken(e.op)] + Parenthesized(Print(e.right), RightNeedsParens(e.op, e.right)))
  {
    hide OperatorToken, RightNeedsParens, LeftNeedsParens, Parenthesized;
  }

  lemma {:induction false} BinaryMinus(e: Expr, minus: L.MinusState)
    requires e.Binary? && SpeltExpr(e)
    ensures MinusEnd(Print(e), minus) == EndOf(e)
    ensures MinusOk(Print(e), minus) ==> Writable(e) && Fits(e, false, minus)
    decreases e, 0
  {
    PrintBinary(e);
    hide Print, OperatorToken, RightNeedsParens, LeftNeedsParens, MinusOk, MinusEnd, MinusAfter, MinusFits, Next,
      OperandEnd, Parenthesized;
    var lp, rp := LeftNeedsParens(e.op, e.left), RightNeedsParens(e.op, e.right);
    var left, right := Parenthesized(Print(e.left), lp), Parenthesized(Print(e.right), rp);
    OperandMinus(e.left, lp, minus);
    OperandMinus(e.right, rp, MinusAfter(OperatorToken(e.op)));
    NextOperator(e.op, OperandEnd(e.left, lp));
    MinusCons(OperatorToken(e.op), right, OperandEnd(e.left, lp));
    MinusAppend(left, [OperatorToken(e.op)] + right, minus);
  }

  lemma {:induction false} CallMinus(e: Expr, minus: L.MinusState)
    requires e.Call? && SpeltExpr(e)
    ensures MinusEnd(Print(e), minus) == EndOf(e)
    ensures MinusOk(Print(e), minus) ==> Writable(e) && Fits(e, false, minus)
    decreases e, 0
  {
    var args := PrintArgs(e.args);
    assert Print(e) == [Id(e.name)] + ([LeftParen] + (args + [RightParen])) by { hide PrintArgs; }
    hide Print, PrintArgs, MinusOk, MinusEnd, NameText;
    ArgsMinus(e.args);
    MinusOne(RightParen, MinusEnd(args, L.Signed));
    MinusAppend(args, [RightParen], L.Signed);
    MinusCons(LeftParen, args + [RightParen], L.Operator);
    MinusCons(Id(e.name), [LeftParen] + (args + [RightParen]), minus);
  }

  lemma {:induction false} ArgsMinus(args: seq<Expr>)
    requires forall i :: 0 <= i < |args| ==> SpeltExpr(args[i])
    ensures MinusOk(PrintArgs(args), L.Signed) ==> forall i :: 0 <= i < |args| ==> Writable(args[i])
    decreases args, 2
  {
    hide Print, SpeltExpr, Writable, EndOf, MinusOk, MinusEnd;
    if |args| == 1 {
      ExpressionMinus(args[0], L.Signed);
    } else if |args| > 1 {
      var more := PrintArgs(args[1..]);
      ExpressionMinus(args[0], L.Signed);
      ArgsMinus(args[1..]);
      MinusCons(Comma, more, EndOf(args[0]));
      MinusAppend(Print(args[0]), [Comma] + more, L.Signed);
      if MinusOk(PrintArgs(args), L.Signed) {
        forall i | 0 <= i < |args|
          ensures Writable(args[i])
        {
          assert i > 0 ==> args[i] == args[1..][i - 1];
        }
      }
    }
  }

  // ---- Statements ----

  predicate SpeltStmt(s: Stmt)
    decreases s
  {
    match s
    case Plain(text) => TextOk(text)
    case Output(e) => SpeltExpr(e)
    case SetStmt(key, e) => NameText(key) && SpeltExpr(e)
    case IfStmt(c, t, e) => SpeltExpr(c) && SpeltBlock(t) && SpeltElse(e)
    case ForStmt(key, value, c, b) =>
      (key.Some? ==> NameText(key.value)) && NameText(value) && SpeltExpr(c) && SpeltBlock(b)
  }

  predicate SpeltBlock(b: seq<Stmt>)
    decreases b
  {
    b != [] ==> SpeltStmt(b[0]) && SpeltBlock(b[1..]) && !(b[0].Plain? && |b| > 1 && b[1].Plain?)
  }

  predicate SpeltElse(e: Else)
    decreases e
  {
    match e
    case NoElse => true
    case ElseBranch(b) => SpeltBlock(b)
    case ElseIf(c, t, f) => SpeltExpr(c) && SpeltBlock(t) && SpeltElse(f)
  }

  lemma TagMinus(ts: seq<Token>, minus: L.MinusState)
    ensures MinusOk(Tag(ts), minus) <==> MinusOk(ts, minus)
    ensures MinusEnd(Tag(ts), minus) == MinusEnd(ts, minus)
  {
    MinusOne(StatementClose, MinusEnd(ts, minus));
    MinusAppend(ts, [StatementClose], minus);
    MinusCons(StatementOpen, ts + [StatementClose], minus);
    hide MinusOk, MinusEnd;
  }

  lemma WordMinus(name: string, ts: seq<Token>, minus: L.MinusState)
    ensures MinusOk([Id(name)] + ts, minus) <==> MinusOk(ts, L.Operator)
    ensures MinusEnd([Id(name)] + ts, minus) == MinusEnd(ts, L.Operator)
  {
    MinusCons(Id(name), ts, minus);
    hide MinusOk, MinusEnd;
  }

  /** Some words, the last of which leaves a minus sign an operator, and an expression. */
  lemma ConditionMinus(words: seq<Token>, c: Expr, minus: L.MinusState)
    requires SpeltExpr(c) && MinusOk(words, minus) && MinusEnd(words, minus) == L.Operator
    ensures MinusEnd(Tag(words + Print(c)), minus) == EndOf(c)
    ensures MinusOk(Tag(words + Print(c)), minus) ==> ConditionWritable(c)
  {
    TagMinus(words + Print(c), minus);
    MinusAppend(words, Print(c), minus);
    ExpressionMinus(c, L.Operator);
    hide Tag, MinusOk, MinusEnd, Print, EndOf, Writable;
  }

  lemma OneWord(name: string, minus: L.MinusState)
    ensures MinusOk([Id(name)], minus) && MinusEnd([Id(name)], minus) == L.Operator
  {
  }

  lemma WordTagMinus(name: string, minus: L.MinusState)
    ensures MinusEnd(Tag([Id(name)]), minus) == L.Operator
  {
    OneWord(name, minus);
    TagMinus([Id(name)], minus);
    hide Tag, MinusOk, MinusEnd;
  }

  lemma TwoWords(a: string, b: string, minus: L.MinusState)
    ensures MinusOk([Id(a), Id(b)], minus) && MinusEnd([Id(a), Id(b)], minus) == L.Operator
  {
    OneWord(b, L.Operator);
    WordMinus(a, [Id(b)], minus);
    assert [Id(a)] + [Id(b)] == [Id(a), Id(b)];
    hide MinusOk, MinusEnd;
  }

  lemma OutputMinus(e: Expr, minus: L.MinusState)
    requires SpeltExpr(e)
    ensures var ts := [ExpressionOpen] + (Print(e) + [ExpressionClose]);
      MinusEnd(ts, minus) == EndOf(e) && (MinusOk(ts, minus) ==> Writable(e) && Fits(e, false, minus))
  {
    ExpressionMinus(e, minus);
    MinusOne(ExpressionClose, EndOf(e));
    MinusAppend(Print(e), [ExpressionClose], minus);
    MinusCons(ExpressionOpen, Print(e) + [ExpressionClose], minus);
    hide MinusOk, MinusEnd, Print, EndOf, Writable, Fits;
  }

  lemma EqualsMinus(ts: seq<Token>, minus: L.MinusState)
    ensures MinusOk([Unknown("=")] + ts, minus) <==> MinusOk(ts, L.Signed)
    ensures MinusEnd([Unknown("=")] + ts, minus) == MinusEnd(ts, L.Signed)
  {
    MinusCons(Unknown("="), ts, minus);
    hide MinusOk, MinusEnd;
  }

  lemma SetMinus(key: string, e: Expr, minus: L.MinusState)
    requires SpeltExpr(e)
    ensures var ts := Tag([Id("set"), Id(key), Unknown("=")] + Print(e));
      MinusEnd(ts, minus) == EndOf(e) && (MinusOk(ts, minus) ==> Writable(e))
  {
    hide *;
    var ts := [Id("set"), Id(key), Unknown("=")] + Print(e);
    assert ts == [Id("set")] + ([Id(key)] + ([Unknown("=")] + Print(e)));
    ExpressionMinus(e, L.Signed);
    EqualsMinus(Print(e), L.Operator);
    WordMinus(key, [Unknown("=")] + Print(e), L.Operator);
    WordMinus("set", [Id(key)] + ([Unknown("=")] + Print(e)), minus);
    TagMinus(ts, minus);
  }

  lemma ForMinus(key: Option<string>, value: string, c: Expr, minus: L.MinusState)
    requires SpeltExpr(c)
    ensures var ts := Tag([Id("for")] + (ForNames(key, value) + ([Id("in")] + Print(c))));
      MinusEnd(ts, minus) == EndOf(c) && (MinusOk(ts, minus) ==> ConditionWritable(c))
  {
    var words := [Id("for")] + (ForNames(key, value) + [Id("in")]);
    NamesMinus(key, value);
    MinusAppend(ForNames(key, value), [Id("in")], L.Operator);
    OneWord("in", L.Operator);
    WordMinus("for", ForNames(key, value) + [Id("in")], minus);
    hide MinusOk, MinusEnd, Print, EndOf, Writable, Tag, ForNames;
    ConditionMinus(words, c, minus);
    assert words + Print(c) == [Id("for")] + (ForNames(key, value) + ([Id("in")] + Print(c)));
  }

  lemma NamesMinus(key: Option<string>, value: string)
    ensures MinusOk(ForNames(key, value), L.Operator) && MinusEnd(ForNames(key, value), L.Operator) == L.Operator
  {
    OneWord(value, L.Operator);
    if key.Some? {
      OneWord(value, L.Signed);
      MinusCons(Comma, [Id(value)], L.Operator);
      WordMinus(key.value, [Comma] + [Id(value)], L.Operator);
      assert ForNames(key, value) == [Id(key.value)] + ([Comma] + [Id(value)]);
    }
    hide MinusOk, MinusEnd;
  }

  lemma {:induction false} StmtMinus(s: Stmt, minus: L.MinusState)
    requires SpeltStmt(s)
    ensures MinusEnd(PrintStmt(s), minus) == StmtEnd(s, minus)
    ensures MinusOk(PrintStmt(s), minus) ==> StmtWritable(s, minus)
    decreases s
  {
    hide MinusOk, MinusEnd, TextOk, NameText, SpeltExpr, SpeltBlock, SpeltElse, Writable, BlockWritable, ElseWritable,
      ConditionWritable, Tag, Print, PrintBlock, PrintElse, ForNames, EndOf, Fits;
    match s
    case Plain(text) => MinusOne(Text(text), minus);
    case Output(e) => OutputMinus(e, minus);
    case SetStmt(key, e) => SetMinus(key, e, minus);
    case IfStmt(c, t, e) =>
      var open, close := Tag([Id("if")] + Print(c)), Tag([Id("endif")]);
      OneWord("if", minus);
      ConditionMinus([Id("if")], c, minus);
      BlockMinus(t, EndOf(c));
      ElseMinus(e, BlockEnd(t, EndOf(c)));
      WordTagMinus("endif", MinusEnd(PrintElse(e), BlockEnd(t, EndOf(c))));
      MinusAppend(PrintElse(e), close, BlockEnd(t, EndOf(c)));
      MinusAppend(PrintBlock(t), PrintElse(e) + close, EndOf(c));
      MinusAppend(open, PrintBlock(t) + (PrintElse(e) + close), minus);
    case ForStmt(key, value, c, b) =>
      var open := Tag([Id("for")] + (ForNames(key, value) + ([Id("in")] + Print(c))));
      var close := Tag([Id("endfor")]);
      ForMinus(key, value, c, minus);
      BlockMinus(b, EndOf(c));
      WordTagMinus("endfor", BlockEnd(b, EndOf(c)));
      MinusAppend(PrintBlock(b), close, EndOf(c));
      MinusAppend(open, PrintBlock(b) + close, minus);
  }

  lemma {:induction false} BlockMinus(b: seq<Stmt>, minus: L.MinusState)
    requires SpeltBlock(b)
    ensures MinusEnd(PrintBlock(b), minus) == BlockEnd(b, minus)
    ensures MinusOk(PrintBlock(b), minus) ==> BlockWritable(b, minus)
    decreases b
  {
    if b != [] {
      StmtMinus(b[0], minus);
      BlockMinus(b[1..], StmtEnd(b[0], minus));
      MinusAppend(PrintStmt(b[0]), PrintBlock(b[1..]), minus);
      hide MinusOk, MinusEnd, SpeltStmt, StmtWritable, PrintStmt, StmtEnd;
    }
  }

  lemma {:induction false} ElseMinus(e: Else, minus: L.MinusState)
    requires SpeltElse(e)
    ensures MinusOk(PrintElse(e), minus) ==> ElseWritable(e)
    decreases e
  {
    hide MinusOk, MinusEnd, SpeltExpr, SpeltBlock, Writable, BlockWritable, ConditionWritable, Tag, Print, PrintBlock,
      EndOf;
    match e
    case NoElse =>
    case ElseBranch(b) =>
      WordTagMinus("else", minus);
      BlockMinus(b, L.Operator);
      MinusAppend(Tag([Id("else")]), PrintBlock(b), minus);
    case ElseIf(c, t, f) =>
      var open := Tag([Id("else"), Id("if")] + Print(c));
      TwoWords("else", "if", minus);
      ConditionMinus([Id("else"), Id("if")], c, minus);
      BlockMinus(t, EndOf(c));
      ElseMinus(f, BlockEnd(t, EndOf(c)));
      MinusAppend(PrintBlock(t), PrintElse(f), EndOf(c));
      MinusAppend(open, PrintBlock(t) + PrintElse(f), minus);
  }

  // ---- The exact condition ----

  /** Some source text has these tokens. */
  ghost predicate HasSource(toks: seq<Token>) {
    CFG.Valid() && exists s: string :: Tokens(s, L.START) == toks
  }

  /** A template of rightly spelled parts comes from a source text exactly if its minus signs fit. */
  lemma WritableExactly(b: seq<Stmt>)
    requires SpeltBlock(b)
    ensures HasSource(PrintBlock(b)) <==> BlockWritable(b, L.Signed)
  {
    hide BlockWritable, PrintBlock, SpeltBlock, Lexable, MinusOk, Tokens;
    if BlockWritable(b, L.Signed) {
      EmptyLexable(BlockEnd(b, L.Signed));
      BlockLexable(b, [], L.Signed);
      assert PrintBlock(b) + [] == PrintBlock(b);
      LexerRoundTrip(PrintBlock(b));
    }
    if HasSource(PrintBlock(b)) {
      var s: string :| Tokens(s, L.START) == PrintBlock(b);
      RunFits(s, L.START);
      BlockMinus(b, L.Signed);
    }
  }
}
