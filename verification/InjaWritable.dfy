/**
 Which templates survive being written out and read again: those whose names, numbers and strings are spelled as
 the lexer reads them, and in which every subtraction and every negative number stands where a minus sign is read as
 an operator or as a sign; that depends on the symbol before it, even across statements.
 */
module InjaWritable {
  import opened Sequences
  import opened InjaSyntax
  import opened InjaExpression
  import opened InjaStatements
  import opened InjaTemplateProof
  import opened InjaSourceText
  import M = InjaTemplateMemory
  import L = InjaLexer

  // ---- Expressions ----

  /** The first token of the printed expression is a negative number. */
  predicate StartsNegative(e: Expr) {
    match e
    case Literal(t) => Negative(t)
    case Binary(op, l, _) => !LeftNeedsParens(op, l) && StartsNegative(l)
    case _ => false
  }

  /** What a minus sign is after the printed expression: no operator after a string or a negative number. */
  function EndOf(e: Expr): L.MinusState
    decreases e, 0
  {
    match e
    case Literal(t) => MinusAfter(t)
    case Prefix(a) => OperandEnd(a, RightNeedsParens(Not, a))
    case Binary(op, _, r) => OperandEnd(r, RightNeedsParens(op, r))
    case _ => L.Operator
  }

  function OperandEnd(e: Expr, parens: bool): L.MinusState
    decreases e, 1
  {
    if parens then L.Operator else EndOf(e)
  }

  predicate Fits(e: Expr, parens: bool, minus: L.MinusState) {
    StartsNegative(e) && !parens ==> minus == L.Signed
  }

  predicate Writable(e: Expr) {
    match e
    case Literal(t) => Spelled(t) && (t.Id? || t.Number? || t.String?)
    case Data(name) => NameText(name)
    case Prefix(a) => Writable(a) && Fits(a, RightNeedsParens(Not, a), L.Operator)
    case Binary(op, l, r) =>
      && Writable(l) && Writable(r) && (op == Subtract ==> OperandEnd(l, LeftNeedsParens(op, l)) == L.Operator)
      && Fits(r, RightNeedsParens(op, r), MinusAfter(OperatorToken(op)))
    case Call(name, args) => NameText(name) && forall i :: 0 <= i < |args| ==> Writable(args[i])
  }

  /** A symbol in front of a sequence that can be written. */
  lemma LexableCons(t: Token, rest: seq<Token>, mode: Mode, minus: L.MinusState)
    requires !mode.Outside? && Spelled(t) && MinusFits(t, minus) && Lexable(rest, mode, MinusAfter(t))
    ensures Lexable([t] + rest, mode, minus)
  {
    assert ([t] + rest)[1..] == rest;
    SpelledIsNoClosing(t, mode);
    hide Spelled, MinusFits;
  }

  lemma SpelledIsNoClosing(t: Token, mode: Mode)
    requires Spelled(t) && !mode.Outside?
    ensures t != ClosingToken(mode)
  {
  }

  lemma OperatorSpelled(op: Op)
    ensures Spelled(OperatorToken(op)) && !Negative(OperatorToken(op))
    ensures OperatorToken(op) == Sign(Symbol.Minus) <==> op == Subtract
    ensures MinusAfter(OperatorToken(Not)) == L.Operator
  {
  }

  lemma OperatorLexable(op: Op, rest: seq<Token>, mode: Mode, minus: L.MinusState)
    requires !mode.Outside? && (op == Subtract ==> minus == L.Operator)
    requires Lexable(rest, mode, MinusAfter(OperatorToken(op)))
    ensures Lexable([OperatorToken(op)] + rest, mode, minus)
  {
    OperatorSpelled(op);
    hide Spelled, Lexable, OperatorToken, MinusAfter;
    LexableCons(OperatorToken(op), rest, mode, minus);
  }

  /** An expression can be written in front of what can be written after it, where its first token fits. */
  lemma {:induction false} ExpressionLexable(e: Expr, rest: seq<Token>, mode: Mode, minus: L.MinusState)
    requires !mode.Outside? && Writable(e) && Fits(e, false, minus) && Lexable(rest, mode, EndOf(e))
    ensures Lexable(Print(e) + rest, mode, minus)
    decreases e, 1
  {
    match e
    case Literal(t) => LiteralLexable(t, rest, mode, minus);
    case Data(name) => LexableCons(Id(name), rest, mode, minus);
    case Prefix(a) => PrefixLexable(e, rest, mode, minus);
    case Binary(_, _, _) => BinaryLexable(e, rest, mode, minus);
    case Call(_, _) => CallLexable(e, rest, mode, minus);
  }

  lemma LiteralLexable(t: Token, rest: seq<Token>, mode: Mode, minus: L.MinusState)
    requires !mode.Outside? && Writable(Literal(t)) && Fits(Literal(t), false, minus)
    requires Lexable(rest, mode, MinusAfter(t))
    ensures Lexable([t] + rest, mode, minus)
  {
    hide Lexable, Spelled, MinusAfter;
    LexableCons(t, rest, mode, minus);
  }

  lemma PrefixParts(e: Expr, rest: seq<Token>)
    requires e.Prefix? && Writable(e)
    ensures Writable(e.arg) && EndOf(e) == OperandEnd(e.arg, RightNeedsParens(Not, e.arg))
    ensures Fits(e.arg, RightNeedsParens(Not, e.arg), L.Operator) && MinusAfter(OperatorToken(Not)) == L.Operator
    ensures Print(e) + rest == [OperatorToken(Not)] + (Parenthesized(Print(e.arg), RightNeedsParens(Not, e.arg)) + rest)
  {
    OperatorSpelled(Not);
    PrintPrefix(e);
    hide Print, OperatorToken, RightNeedsParens;
  }

  lemma PrintPrefix(e: Expr)
    requires e.Prefix?
    ensures Print(e) == [OperatorToken(Not)] + Parenthesized(Print(e.arg), RightNeedsParens(Not, e.arg))
  {
    hide OperatorToken, RightNeedsParens;
  }

  lemma {:induction false} PrefixLexable(e: Expr, rest: seq<Token>, mode: Mode, minus: L.MinusState)
    requires e.Prefix? && !mode.Outside? && Writable(e) && Lexable(rest, mode, EndOf(e))
    ensures Lexable(Print(e) + rest, mode, minus)
    decreases e, 0
  {
    PrefixParts(e, rest);
    hide *;
    var parens := RightNeedsParens(Not, e.arg);
    OperandLexable(e.arg, parens, rest, mode, L.Operator);
    OperatorLexable(Not, Parenthesized(Print(e.arg), parens) + rest, mode, minus);
  }

  lemma {:induction false} OperandLexable(e: Expr, parens: bool, rest: seq<Token>, mode: Mode, minus: L.MinusState)
    requires !mode.Outside? && Writable(e) && Fits(e, parens, minus) && Lexable(rest, mode, OperandEnd(e, parens))
    ensures Lexable(Parenthesized(Print(e), parens) + rest, mode, minus)
    decreases e, 2
  {
    hide Lexable, Writable, Print, EndOf, StartsNegative;
    if parens {
      LexableCons(RightParen, rest, mode, EndOf(e));
      ExpressionLexable(e, [RightParen] + rest, mode, L.Signed);
      LexableCons(LeftParen, Print(e) + ([RightParen] + rest), mode, minus);
      assert Parenthesized(Print(e), true) + rest == [LeftParen] + (Print(e) + ([RightParen] + rest));
    } else {
      ExpressionLexable(e, rest, mode, minus);
    }
  }

  lemma BinaryParts(e: Expr, minus: L.MinusState, rest: seq<Token>)
    requires e.Binary? && Writable(e) && Fits(e, false, minus)
    ensures Writable(e.left) && Fits(e.left, LeftNeedsParens(e.op, e.left), minus)
    ensures e.op == Subtract ==> OperandEnd(e.left, LeftNeedsParens(e.op, e.left)) == L.Operator
    ensures Writable(e.right) && Fits(e.right, RightNeedsParens(e.op, e.right), MinusAfter(OperatorToken(e.op)))
    ensures EndOf(e) == OperandEnd(e.right, RightNeedsParens(e.op, e.right))
    ensures Print(e) + rest == Parenthesized(Print(e.left), LeftNeedsParens(e.op, e.left))
      + ([OperatorToken(e.op)] + (Parenthesized(Print(e.right), RightNeedsParens(e.op, e.right)) + rest))
  {
    hide OperatorToken, LeftNeedsParens, RightNeedsParens, MinusAfter, OperandEnd;
  }

  lemma {:induction false} BinaryLexable(e: Expr, rest: seq<Token>, mode: Mode, minus: L.MinusState)
    requires e.Binary? && !mode.Outside? && Writable(e) && Fits(e, false, minus) && Lexable(rest, mode, EndOf(e))
    ensures Lexable(Print(e) + rest, mode, minus)
    decreases e, 0
  {
    BinaryParts(e, minus, rest);
    hide *;
    var lp, rp := LeftNeedsParens(e.op, e.left), RightNeedsParens(e.op, e.right);
    var right := Parenthesized(Print(e.right), rp) + rest;
    OperandLexable(e.right, rp, rest, mode, MinusAfter(OperatorToken(e.op)));
    OperatorLexable(e.op, right, mode, OperandEnd(e.left, lp));
    OperandLexable(e.left, lp, [OperatorToken(e.op)] + right, mode, minus);
  }

  lemma CallParts(e: Expr, rest: seq<Token>)
    requires e.Call? && Writable(e)
    ensures EndOf(e) == L.Operator && Spelled(Id(e.name))
    ensures Print(e) + rest == [Id(e.name)] + ([LeftParen] + (PrintArgs(e.args) + ([RightParen] + rest)))
  {
    hide PrintArgs;
    assert Print(e) == [Id(e.name)] + ([LeftParen] + (PrintArgs(e.args) + [RightParen]));
  }

  lemma {:induction false} CallLexable(e: Expr, rest: seq<Token>, mode: Mode, minus: L.MinusState)
    requires e.Call? && !mode.Outside? && Writable(e) && Lexable(rest, mode, EndOf(e))
    ensures Lexable(Print(e) + rest, mode, minus)
    decreases e, 0
  {
    hide Lexable, Print, PrintArgs, EndOf;
    CallParts(e, rest);
    forall m
      ensures Lexable([RightParen] + rest, mode, m)
    {
      LexableCons(RightParen, rest, mode, m);
    }
    ArgsLexable(e.args, [RightParen] + rest, mode);
    LexableCons(LeftParen, PrintArgs(e.args) + ([RightParen] + rest), mode, L.Operator);
    LexableCons(Id(e.name), [LeftParen] + (PrintArgs(e.args) + ([RightParen] + rest)), mode, minus);
  }

  lemma {:induction false} ArgsLexable(args: seq<Expr>, rest: seq<Token>, mode: Mode)
    requires !mode.Outside? && forall i :: 0 <= i < |args| ==> Writable(args[i])
    requires forall m :: Lexable(rest, mode, m)
    ensures Lexable(PrintArgs(args) + rest, mode, L.Signed)
    decreases args, 2
  {
    hide Lexable, Writable, Print, EndOf;
    if args == [] {
      assert PrintArgs(args) + rest == rest;
    } else if |args| == 1 {
      ExpressionLexable(args[0], rest, mode, L.Signed);
    } else {
      var more := PrintArgs(args[1..]) + rest;
      ArgsLexable(args[1..], rest, mode);
      LexableCons(Comma, more, mode, EndOf(args[0]));
      ExpressionLexable(args[0], [Comma] + more, mode, L.Signed);
      assert PrintArgs(args) + rest == Print(args[0]) + ([Comma] + more);
    }
  }

  // ---- Statements ----

  /**
   A statement whose symbols are spelled rightly and which fits where a minus sign would be what `minus` says. After
   a word of a statement a minus sign is an operator, and it stays what it is across delimiters and text.
   */
  predicate StmtWritable(s: Stmt, minus: L.MinusState)
    decreases s
  {
    match s
    case Plain(text) => TextOk(text)
    case Output(e) => Writable(e) && Fits(e, false, minus)
    case SetStmt(key, e) => NameText(key) && Writable(e)
    case IfStmt(c, t, e) => ConditionWritable(c) && BlockWritable(t, EndOf(c)) && ElseWritable(e)
    case ForStmt(key, value, c, b) =>
      && (key.Some? ==> NameText(key.value)) && NameText(value)
      && ConditionWritable(c) && BlockWritable(b, EndOf(c))
  }

  predicate ConditionWritable(c: Expr) {
    Writable(c) && !StartsNegative(c)
  }

  /** What a minus sign is after a statement. */
  function StmtEnd(s: Stmt, minus: L.MinusState): L.MinusState {
    match s
    case Plain(_) => minus
    case Output(e) => EndOf(e)
    case SetStmt(_, e) => EndOf(e)
    case _ => L.Operator
  }

  /** Two texts in a row would be read as one. */
  predicate BlockWritable(b: seq<Stmt>, minus: L.MinusState)
    decreases b
  {
    b != [] ==>
      && StmtWritable(b[0], minus) && BlockWritable(b[1..], StmtEnd(b[0], minus))
      && !(b[0].Plain? && |b| > 1 && b[1].Plain?)
  }

  function BlockEnd(b: seq<Stmt>, minus: L.MinusState): L.MinusState {
    if b == [] then minus else BlockEnd(b[1..], StmtEnd(b[0], minus))
  }

  predicate ElseWritable(e: Else)
    decreases e
  {
    match e
    case NoElse => true
    case ElseBranch(b) => BlockWritable(b, L.Operator)
    case ElseIf(c, t, f) => ConditionWritable(c) && BlockWritable(t, EndOf(c)) && ElseWritable(f)
  }

  /** A sequence that can be written whatever a minus sign would be. */
  ghost predicate Good(toks: seq<Token>, mode: Mode) {
    forall m :: Lexable(toks, mode, m)
  }

  predicate NoText(toks: seq<Token>) {
    toks != [] ==> !toks[0].Text?
  }

  /** A delimiter, what stands in it, and what comes after it. */
  lemma DelimitedLexable(open: Token, ts: seq<Token>, mode: Mode, rest: seq<Token>, minus: L.MinusState)
    requires if mode.InExpression? then open == ExpressionOpen else mode.InStatement? && open == StatementOpen
    requires Lexable(ts + ([ClosingToken(mode)] + rest), mode, minus)
    ensures Lexable([open] + (ts + ([ClosingToken(mode)] + rest)), Outside, minus)
    ensures NoText([open] + (ts + ([ClosingToken(mode)] + rest)))
  {
    var inside := ts + ([ClosingToken(mode)] + rest);
    assert ([open] + inside)[1..] == inside;
  }

  lemma ClosingLexable(mode: Mode, rest: seq<Token>, minus: L.MinusState)
    requires !mode.Outside? && Lexable(rest, Outside, minus)
    ensures ClosingToken(mode) == if mode.InExpression? then ExpressionClose else StatementClose
    ensures Lexable([ClosingToken(mode)] + rest, mode, minus)
  {
    assert ([ClosingToken(mode)] + rest)[1..] == rest;
  }

  lemma WordsAreNames()
    ensures NameText("if") && NameText("else") && NameText("endif") && NameText("for") && NameText("in")
    ensures NameText("endfor") && NameText("set")
  {
  }

  /** Words in front of what can be written after them. */
  lemma WordGood(name: string, ts: seq<Token>)
    requires NameText(name) && Lexable(ts, InStatement, L.Operator)
    ensures Good([Id(name)] + ts, InStatement)
  {
    hide Lexable, NameText;
    forall m
      ensures Lexable([Id(name)] + ts, InStatement, m)
    {
      LexableCons(Id(name), ts, InStatement, m);
    }
  }

  lemma SymbolGood(t: Token, ts: seq<Token>)
    requires (t == Comma || t == Unknown("=")) && Lexable(ts, InStatement, L.Signed)
    ensures Good([t] + ts, InStatement)
  {
    hide Lexable;
    forall m
      ensures Lexable([t] + ts, InStatement, m)
    {
      LexableCons(t, ts, InStatement, m);
    }
  }

  /** The expression at the end of a statement. */
  lemma LastExpression(e: Expr, rest: seq<Token>, minus: L.MinusState)
    requires Writable(e) && Fits(e, false, minus) && Lexable(rest, Outside, EndOf(e))
    ensures Lexable(Print(e) + ([StatementClose] + rest), InStatement, minus)
  {
    hide Lexable, Writable, Print, EndOf, Fits;
    ClosingLexable(InStatement, rest, EndOf(e));
    assert [ClosingToken(InStatement)] + rest == [StatementClose] + rest;
    ExpressionLexable(e, [StatementClose] + rest, InStatement, minus);
  }

  /** A statement with its words and its expression, before anything that can be written. */
  lemma TagGood(ts: seq<Token>, rest: seq<Token>)
    requires Good(ts + ([StatementClose] + rest), InStatement)
    ensures Good(Tag(ts) + rest, Outside) && NoText(Tag(ts) + rest)
  {
    hide Lexable;
    assert ClosingToken(InStatement) == StatementClose;
    assert Tag(ts) + rest == [StatementOpen] + (ts + ([StatementClose] + rest));
    forall m
      ensures Lexable(Tag(ts) + rest, Outside, m) && NoText(Tag(ts) + rest)
    {
      DelimitedLexable(StatementOpen, ts, InStatement, rest, m);
    }
    hide Tag;
  }

  lemma WordTagGood(name: string, rest: seq<Token>)
    requires NameText(name) && Lexable(rest, Outside, L.Operator)
    ensures Good(Tag([Id(name)]) + rest, Outside) && NoText(Tag([Id(name)]) + rest)
  {
    hide Lexable, NameText, Tag, Good;
    ClosingLexable(InStatement, rest, L.Operator);
    assert [ClosingToken(InStatement)] + rest == [StatementClose] + rest;
    WordGood(name, [StatementClose] + rest);
    TagGood([Id(name)], rest);
  }

  lemma IfTagGood(c: Expr, rest: seq<Token>)
    requires ConditionWritable(c) && Lexable(rest, Outside, EndOf(c))
    ensures Good(Tag([Id("if")] + Print(c)) + rest, Outside) && NoText(Tag([Id("if")] + Print(c)) + rest)
  {
    WordsAreNames();
    hide Lexable, NameText, Tag, Print, Writable, EndOf, Good;
    var close := [StatementClose] + rest;
    LastExpression(c, rest, L.Operator);
    WordGood("if", Print(c) + close);
    assert [Id("if")] + (Print(c) + close) == [Id("if")] + Print(c) + close;
    TagGood([Id("if")] + Print(c), rest);
  }

  lemma GoodAt(toks: seq<Token>, mode: Mode, minus: L.MinusState)
    requires Good(toks, mode)
    ensures Lexable(toks, mode, minus)
  {
  }

  lemma ElseIfTagGood(c: Expr, rest: seq<Token>)
    requires ConditionWritable(c) && Lexable(rest, Outside, EndOf(c))
    ensures var ts := [Id("else"), Id("if")] + Print(c); Good(Tag(ts) + rest, Outside) && NoText(Tag(ts) + rest)
  {
    WordsAreNames();
    hide Lexable, NameText, Tag, Print, Writable, EndOf, Good;
    var close := [StatementClose] + rest;
    LastExpression(c, rest, L.Operator);
    WordGood("if", Print(c) + close);
    GoodAt([Id("if")] + (Print(c) + close), InStatement, L.Operator);
    WordGood("else", [Id("if")] + (Print(c) + close));
    assert [Id("else")] + ([Id("if")] + (Print(c) + close)) == [Id("else"), Id("if")] + Print(c) + close;
    TagGood([Id("else"), Id("if")] + Print(c), rest);
  }

  lemma SetTagGood(key: string, e: Expr, rest: seq<Token>)
    requires NameText(key) && Writable(e) && Lexable(rest, Outside, EndOf(e))
    ensures var ts := [Id("set"), Id(key), Unknown("=")] + Print(e);
      Good(Tag(ts) + rest, Outside) && NoText(Tag(ts) + rest)
  {
    WordsAreNames();
    hide Lexable, NameText, Tag, Print, Writable, EndOf, Good;
    var close := [StatementClose] + rest;
    LastExpression(e, rest, L.Signed);
    SymbolGood(Unknown("="), Print(e) + close);
    GoodAt([Unknown("=")] + (Print(e) + close), InStatement, L.Operator);
    WordGood(key, [Unknown("=")] + (Print(e) + close));
    GoodAt([Id(key)] + ([Unknown("=")] + (Print(e) + close)), InStatement, L.Operator);
    WordGood("set", [Id(key)] + ([Unknown("=")] + (Print(e) + close)));
    var ts := [Id("set"), Id(key), Unknown("=")] + Print(e);
    assert [Id("set")] + ([Id(key)] + ([Unknown("=")] + (Print(e) + close))) == ts + close;
    TagGood(ts, rest);
  }

  lemma ForNamesGood(key: Option<string>, value: string, ts: seq<Token>)
    requires (key.Some? ==> NameText(key.value)) && NameText(value) && Lexable(ts, InStatement, L.Operator)
    ensures Good(ForNames(key, value) + ts, InStatement)
  {
    hide Lexable, NameText, Good;
    WordGood(value, ts);
    if key.Some? {
      GoodAt([Id(value)] + ts, InStatement, L.Signed);
      SymbolGood(Comma, [Id(value)] + ts);
      GoodAt([Comma] + ([Id(value)] + ts), InStatement, L.Operator);
      WordGood(key.value, [Comma] + ([Id(value)] + ts));
      assert ForNames(key, value) + ts == [Id(key.value)] + ([Comma] + ([Id(value)] + ts));
    }
  }

  lemma ForTagGood(key: Option<string>, value: string, c: Expr, rest: seq<Token>)
    requires (key.Some? ==> NameText(key.value)) && NameText(value)
    requires ConditionWritable(c) && Lexable(rest, Outside, EndOf(c))
    ensures var ts := [Id("for")] + (ForNames(key, value) + ([Id("in")] + Print(c)));
      Good(Tag(ts) + rest, Outside) && NoText(Tag(ts) + rest)
  {
    WordsAreNames();
    hide Lexable, NameText, Tag, Print, Writable, ForNames, EndOf, Good;
    var close := [StatementClose] + rest;
    LastExpression(c, rest, L.Operator);
    WordGood("in", Print(c) + close);
    GoodAt([Id("in")] + (Print(c) + close), InStatement, L.Operator);
    var names := ForNames(key, value);
    ForNamesGood(key, value, [Id("in")] + (Print(c) + close));
    GoodAt(names + ([Id("in")] + (Print(c) + close)), InStatement, L.Operator);
    WordGood("for", names + ([Id("in")] + (Print(c) + close)));
    var ts := [Id("for")] + (names + ([Id("in")] + Print(c)));
    assert [Id("for")] + (names + ([Id("in")] + (Print(c) + close))) == ts + close;
    TagGood(ts, rest);
  }

  lemma OutputLexable(e: Expr, rest: seq<Token>, minus: L.MinusState)
    requires Writable(e) && Fits(e, false, minus) && Lexable(rest, Outside, EndOf(e))
    ensures var ts := [ExpressionOpen] + (Print(e) + [ExpressionClose]);
      Lexable(ts + rest, Outside, minus) && NoText(ts + rest)
  {
    hide Lexable, Print, Writable, EndOf, Fits;
    ClosingLexable(InExpression, rest, EndOf(e));
    assert [ClosingToken(InExpression)] + rest == [ExpressionClose] + rest;
    ExpressionLexable(e, [ExpressionClose] + rest, InExpression, minus);
    DelimitedLexable(ExpressionOpen, Print(e), InExpression, rest, minus);
    assert [ExpressionOpen] + (Print(e) + [ExpressionClose]) + rest
      == [ExpressionOpen] + (Print(e) + ([ExpressionClose] + rest));
  }

  lemma TextLexable(text: string, rest: seq<Token>, minus: L.MinusState)
    requires TextOk(text) && Lexable(rest, Outside, minus) && NoText(rest)
    ensures Lexable([Text(text)] + rest, Outside, minus)
  {
    hide TextOk;
    var toks := [Text(text)] + rest;
    assert toks[0] == Text(text) && toks[1..] == rest;
  }

  // ---- Templates ----

  lemma {:induction false} StmtLexable(s: Stmt, rest: seq<Token>, minus: L.MinusState)
    requires StmtWritable(s, minus) && Lexable(rest, Outside, StmtEnd(s, minus)) && (s.Plain? ==> NoText(rest))
    ensures Lexable(PrintStmt(s) + rest, Outside, minus) && (!s.Plain? ==> NoText(PrintStmt(s) + rest))
    decreases s
  {
    hide Lexable, NoText, TextOk, NameText, Writable, BlockWritable, ElseWritable, Tag, Print, PrintBlock,
      PrintElse, ForNames, EndOf, Fits, ConditionWritable;
    match s
    case Plain(text) => TextLexable(text, rest, minus);
    case Output(e) => OutputLexable(e, rest, minus);
    case SetStmt(key, e) => SetTagGood(key, e, rest);
    case IfStmt(c, t, e) =>
      WordsAreNames();
      var close := Tag([Id("endif")]) + rest;
      WordTagGood("endif", rest);
      ElseGood(e, close);
      BlockLexable(t, PrintElse(e) + close, EndOf(c));
      IfTagGood(c, PrintBlock(t) + (PrintElse(e) + close));
      IfAssociates(Tag([Id("if")] + Print(c)), PrintBlock(t), PrintElse(e), Tag([Id("endif")]), rest);
    case ForStmt(key, value, c, b) =>
      WordsAreNames();
      var open := Tag([Id("for")] + (ForNames(key, value) + ([Id("in")] + Print(c))));
      var close := Tag([Id("endfor")]) + rest;
      WordTagGood("endfor", rest);
      BlockLexable(b, close, EndOf(c));
      ForTagGood(key, value, c, PrintBlock(b) + close);
      IfAssociates(open, PrintBlock(b), [], Tag([Id("endfor")]), rest);
      assert PrintBlock(b) + ([] + close) == PrintBlock(b) + close;
      assert PrintBlock(b) + ([] + Tag([Id("endfor")])) == PrintBlock(b) + Tag([Id("endfor")]);
  }

  lemma IfAssociates(a: seq<Token>, b: seq<Token>, c: seq<Token>, d: seq<Token>, e: seq<Token>)
    ensures a + (b + (c + d)) + e == a + (b + (c + (d + e)))
  {
  }

  lemma {:induction false} BlockLexable(b: seq<Stmt>, rest: seq<Token>, minus: L.MinusState)
    requires BlockWritable(b, minus) && Lexable(rest, Outside, BlockEnd(b, minus)) && NoText(rest)
    ensures Lexable(PrintBlock(b) + rest, Outside, minus) && (b != [] && !b[0].Plain? ==> NoText(PrintBlock(b) + rest))
    ensures b == [] ==> NoText(PrintBlock(b) + rest)
    decreases b
  {
    hide Lexable, StmtWritable, PrintStmt, StmtEnd;
    if b == [] {
      assert PrintBlock(b) + rest == rest;
    } else {
      var more := PrintBlock(b[1..]) + rest;
      BlockLexable(b[1..], rest, StmtEnd(b[0], minus));
      if |b| > 1 {
        assert b[1..][0] == b[1];
      }
      StmtLexable(b[0], more, minus);
      assert PrintBlock(b) + rest == PrintStmt(b[0]) + more;
    }
  }

  lemma {:induction false} ElseGood(e: Else, rest: seq<Token>)
    requires ElseWritable(e) && Good(rest, Outside) && NoText(rest)
    ensures Good(PrintElse(e) + rest, Outside) && NoText(PrintElse(e) + rest)
    decreases e
  {
    hide Lexable, NoText, NameText, Writable, BlockWritable, Tag, Print, PrintBlock, EndOf, ConditionWritable;
    match e
    case NoElse => assert PrintElse(e) + rest == rest;
    case ElseBranch(b) =>
      WordsAreNames();
      BlockLexable(b, rest, L.Operator);
      WordTagGood("else", PrintBlock(b) + rest);
      assert PrintElse(e) + rest == Tag([Id("else")]) + (PrintBlock(b) + rest);
    case ElseIf(c, t, f) =>
      ElseGood(f, rest);
      BlockLexable(t, PrintElse(f) + rest, EndOf(c));
      ElseIfTagGood(c, PrintBlock(t) + (PrintElse(f) + rest));
      IfAssociates(Tag([Id("else"), Id("if")] + Print(c)), PrintBlock(t), [], PrintElse(f), rest);
      assert PrintBlock(t) + ([] + (PrintElse(f) + rest)) == PrintBlock(t) + (PrintElse(f) + rest);
      assert PrintBlock(t) + ([] + PrintElse(f)) == PrintBlock(t) + PrintElse(f);
  }

  /** A template of this kind, written out as source text, is read again as the same template. */
  lemma WrittenRoundTrip(b: seq<Stmt>, known: Functions)
    requires BlockOk(b, known) && BlockWritable(b, L.Signed)
    ensures var r := Parse(known, Render(PrintBlock(b))); r.Done? && M.Represents(r.value, b)
  {
    hide Lexable, BlockOk, BlockWritable, PrintBlock, Render, M.Represents, Parse;
    EmptyLexable(BlockEnd(b, L.Signed));
    BlockLexable(b, [], L.Signed);
    assert PrintBlock(b) + [] == PrintBlock(b);
    SourceRoundTrip(b, known);
  }

  lemma EmptyLexable(minus: L.MinusState)
    ensures Lexable([], Outside, minus) && NoText([])
  {
  }
}
