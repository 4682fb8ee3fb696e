/** Printing a template and parsing it again rebuilds the same tree in the parser's memory. */
module InjaTemplateProof {
  import opened Sequences
  import opened InjaSyntax
  import opened InjaExpression
  import opened InjaExpressionProof
  import opened InjaStatements

  datatype Stmt =
    | Plain(text: string)
    | Output(expr: Expr)
    | SetStmt(name: string, expr: Expr)
    | IfStmt(condition: Expr, thn: seq<Stmt>, els: Else)
    | ForStmt(key: Option<string>, value: string, condition: Expr, body: seq<Stmt>)

  /** The rest of an if statement: nothing, an else branch, or a chained else-if. */
  datatype Else = NoElse | ElseBranch(body: seq<Stmt>) | ElseIf(condition: Expr, thn: seq<Stmt>, els: Else)

  predicate StmtOk(s: Stmt, known: Functions) {
    match s
    case Plain(_) => true
    case Output(e) => WellFormed(e, known)
    case SetStmt(_, e) => WellFormed(e, known)
    case IfStmt(c, t, e) => WellFormed(c, known) && BlockOk(t, known) && ElseOk(e, known)
    case ForStmt(_, _, c, b) => WellFormed(c, known) && BlockOk(b, known)
  }

  predicate BlockOk(b: seq<Stmt>, known: Functions) {
    b != [] ==> StmtOk(b[0], known) && BlockOk(b[1..], known)
  }

  predicate ElseOk(e: Else, known: Functions) {
    match e
    case NoElse => true
    case ElseBranch(b) => BlockOk(b, known)
    case ElseIf(c, t, f) => WellFormed(c, known) && BlockOk(t, known) && ElseOk(f, known)
  }

  // ---- Printing ----

  /** A statement between its delimiters. */
  function Tag(ts: seq<Token>): seq<Token> {
    [StatementOpen] + (ts + [StatementClose])
  }

  function PrintStmt(s: Stmt): seq<Token> {
    match s
    case Plain(text) => [Text(text)]
    case Output(e) => [ExpressionOpen] + (Print(e) + [ExpressionClose])
    case SetStmt(key, e) => Tag([Id("set"), Id(key), Unknown("=")] + Print(e))
    case IfStmt(c, t, e) =>
      Tag([Id("if")] + Print(c)) + (PrintBlock(t) + (PrintElse(e) + Tag([Id("endif")])))
    case ForStmt(key, value, c, b) =>
      Tag([Id("for")] + (ForNames(key, value) + ([Id("in")] + Print(c)))) + (PrintBlock(b) + Tag([Id("endfor")]))
  }

  function ForNames(key: Option<string>, value: string): seq<Token> {
    if key.None? then [Id(value)] else [Id(key.value), Comma, Id(value)]
  }

  function PrintBlock(b: seq<Stmt>): seq<Token> {
    if b == [] then [] else PrintStmt(b[0]) + PrintBlock(b[1..])
  }

  function PrintElse(e: Else): seq<Token> {
    match e
    case NoElse => []
    case ElseBranch(b) => Tag([Id("else")]) + PrintBlock(b)
    case ElseIf(c, t, f) => Tag([Id("else"), Id("if")] + Print(c)) + (PrintBlock(t) + PrintElse(f))
  }

  // ---- What the parser does with the memory ----

  /** The same statement, up to the flag that an else sets. */
  predicate SameShape(a: Statement, b: Statement) {
    if a.If? then b.If? && b == a.(hasFalse := b.hasFalse) else a == b
  }

  /** Statements are only added, and those already there keep their shape. */
  ghost predicate Grows(m: Memory, r: Memory) {
    && |m.statements| <= |r.statements|
    && forall i {:trigger r.statements[i]} :: 0 <= i < |m.statements| ==> SameShape(m.statements[i], r.statements[i])
  }

  lemma GrowsTransitive(a: Memory, b: Memory, c: Memory)
    requires Grows(a, b) && Grows(b, c)
    ensures Grows(a, c)
  {
    forall i | 0 <= i < |a.statements|
      ensures SameShape(a.statements[i], c.statements[i])
    {
      assert SameShape(a.statements[i], b.statements[i]) && SameShape(b.statements[i], c.statements[i]);
    }
  }

  /** Parsing something balanced: the cursor and the stacks are back where they were. */
  ghost predicate Balanced(m: Memory, r: Memory) {
    r.Valid() && Grows(m, r) && r.ifStack == m.ifStack && r.forStack == m.forStack && r.current == m.current
  }

  lemma BalancedTransitive(a: Memory, b: Memory, c: Memory)
    requires Balanced(a, b) && Balanced(b, c)
    ensures Balanced(a, c)
  {
    GrowsTransitive(a, b, c);
  }

  /** Parsing the else part of an if: else-if statements stay on the stack until the if is closed. */
  ghost predicate Chained(m: Memory, r: Memory) {
    && r.Valid() && Grows(m, r) && r.forStack == m.forStack && m.ifStack <= r.ifStack
    && forall i {:trigger r.ifStack[i]} :: |m.ifStack| <= i < |r.ifStack| ==> r.statements[r.ifStack[i]].nested
  }

  lemma OpenIfFacts(m: Memory, c: Option<Expr>, nested: bool)
    requires m.Valid() && (nested ==> m.ifStack != [])
    ensures var r := m.OpenIf(c, nested);
      && r.Valid() && Grows(m, r) && r.forStack == m.forStack
      && r.ifStack == m.ifStack + [|m.statements|]
      && |r.statements| == |m.statements| + 1
      && r.statements[|m.statements|] == If(c, m.current, nested, false)
  {
  }

  lemma OpenForFacts(m: Memory, key: Option<string>, value: string, c: Option<Expr>)
    requires m.Valid()
    ensures var r := m.OpenFor(key, value, c);
      && r.Valid() && Grows(m, r) && r.ifStack == m.ifStack
      && r.forStack == m.forStack + [|m.statements|]
      && |r.statements| == |m.statements| + 1
      && r.statements[|m.statements|] == For(key, value, c, m.current)
  {
  }

  lemma TakeElseFacts(m: Memory)
    requires m.Valid() && m.ifStack != []
    ensures var r := m.TakeElse();
      r.Valid() && Grows(m, r) && r.ifStack == m.ifStack && r.forStack == m.forStack
  {
  }

  /** Popping a chain of else-if statements stops at the if that it belongs to. */
  lemma {:induction false} PopChain(m: Memory, stack: seq<nat>, n: nat)
    requires m.Ifs(stack) && n < |stack| && !m.statements[stack[n]].nested
    requires forall i {:trigger stack[i]} :: n < i < |stack| ==> m.statements[stack[i]].nested
    ensures m.PopNested(stack) == stack[..n + 1]
    decreases |stack|
  {
    if n + 1 < |stack| {
      PopChain(m, stack[..|stack| - 1], n);
      assert stack[..|stack| - 1][..n + 1] == stack[..n + 1];
    }
  }

  /** One endif closes the if and every else-if chained to it, and returns to the block of the if. */
  lemma CloseIfBalances(m: Memory, c: Option<Expr>, r: Memory)
    requires m.Valid() && Chained(m.OpenIf(c, false), r)
    ensures r.ifStack != [] && Balanced(m, r.CloseIf())
  {
    OpenIfFacts(m, c, false);
    var o := m.OpenIf(c, false);
    var n := |m.ifStack|;
    assert SameShape(o.statements[|m.statements|], r.statements[|m.statements|]);
    assert r.ifStack[n] == o.ifStack[n];
    PopChain(r, r.ifStack, n);
    assert r.ifStack[..n + 1][..n] == m.ifStack;
    GrowsTransitive(m, o, r);
    ShrinkIfStack(r, n);
  }

  lemma ShrinkIfStack(m: Memory, n: nat)
    requires m.Valid() && n <= |m.ifStack|
    ensures m.(ifStack := m.ifStack[..n]).Valid()
  {
  }

  lemma CloseForBalances(m: Memory, key: Option<string>, value: string, c: Option<Expr>, r: Memory)
    requires m.Valid() && Balanced(m.OpenFor(key, value, c), r)
    ensures r.forStack != [] && Balanced(m, r.CloseFor())
  {
    OpenForFacts(m, key, value, c);
    var o := m.OpenFor(key, value, c);
    assert SameShape(o.statements[|m.statements|], r.statements[|m.statements|]);
    assert r.forStack[..|m.forStack|] == m.forStack;
    GrowsTransitive(m, o, r);
  }

  lemma AddBalanced(m: Memory, n: Node)
    requires m.Valid()
    ensures Balanced(m, m.Add(n))
  {
  }

  function Build(m: Memory, s: Stmt): (r: Memory)
    requires m.Valid()
    ensures Balanced(m, r)
    decreases s
  {
    match s
    case Plain(text) => AddBalanced(m, TextNode(text)); m.Add(TextNode(text))
    case Output(e) => AddBalanced(m, OutputNode(Some(e))); m.Add(OutputNode(Some(e)))
    case SetStmt(key, e) => AddBalanced(m, SetNode(key, Some(e))); m.Add(SetNode(key, Some(e)))
    case IfStmt(c, t, e) =>
      OpenIfFacts(m, Some(c), false);
      var r := BuildElse(BuildBlock(m.OpenIf(Some(c), false), t), e);
      ChainedAfter(m.OpenIf(Some(c), false), BuildBlock(m.OpenIf(Some(c), false), t), r);
      CloseIfBalances(m, Some(c), r);
      r.CloseIf()
    case ForStmt(key, value, c, b) =>
      OpenForFacts(m, key, value, Some(c));
      var r := BuildBlock(m.OpenFor(key, value, Some(c)), b);
      CloseForBalances(m, key, value, Some(c), r);
      r.CloseFor()
  }

  function BuildBlock(m: Memory, b: seq<Stmt>): (r: Memory)
    requires m.Valid()
    ensures Balanced(m, r)
    decreases b
  {
    if b == [] then m
    else
      var r := BuildBlock(Build(m, b[0]), b[1..]);
      BalancedTransitive(m, Build(m, b[0]), r);
      r
  }

  function BuildElse(m: Memory, e: Else): (r: Memory)
    requires m.Valid() && m.ifStack != []
    ensures Chained(m, r)
    decreases e
  {
    match e
    case NoElse => m
    case ElseBranch(b) =>
      TakeElseFacts(m);
      var r := BuildBlock(m.TakeElse(), b);
      GrowsTransitive(m, m.TakeElse(), r);
      r
    case ElseIf(c, t, f) =>
      TakeElseFacts(m);
      OpenIfFacts(m.TakeElse(), Some(c), true);
      var o := m.TakeElse().OpenIf(Some(c), true);
      var r := BuildElse(BuildBlock(o, t), f);
      ChainedAfter(o, BuildBlock(o, t), r);
      ChainedThroughElseIf(m, Some(c), r);
      r
  }

  lemma ChainedAfter(m: Memory, b: Memory, r: Memory)
    requires Balanced(m, b) && Chained(b, r)
    ensures Chained(m, r)
  {
    GrowsTransitive(m, b, r);
  }

  lemma ChainedThroughElseIf(m: Memory, c: Option<Expr>, r: Memory)
    requires m.Valid() && m.ifStack != []
    requires m.TakeElse().Valid() && Chained(m.TakeElse().OpenIf(c, true), r)
    ensures Chained(m, r)
  {
    TakeElseFacts(m);
    var u := m.TakeElse();
    OpenIfFacts(u, c, true);
    var o := u.OpenIf(c, true);
    GrowsTransitive(m, u, o);
    GrowsTransitive(m, o, r);
    assert SameShape(o.statements[|u.statements|], r.statements[|u.statements|]);
    assert r.ifStack[|m.ifStack|] == o.ifStack[|m.ifStack|];
  }

  // ---- Reading printed statements ----

  lemma AtTag(toks: seq<Token>, i: nat, ts: seq<Token>)
    requires At(toks, i, Tag(ts))
    ensures i < |toks| && TokenAt(toks, i) == StatementOpen && At(toks, i + 1, ts)
    ensures i + 1 + |ts| < |toks| && TokenAt(toks, i + 1 + |ts|) == StatementClose
  {
    hide At;
    TokenThen(toks, i, StatementOpen, ts + [StatementClose]);
    AtSplit(toks, i + 1, ts, [StatementClose]);
    AtOne(toks, i + 1 + |ts|, StatementClose);
  }

  /** The loop goes on after an item. */
  lemma IntoItem(known: Functions, toks: seq<Token>, i: nat, m: Memory, r: Memory, j: nat)
    requires i < |toks| && m.Valid() && TokenAt(toks, i) != Eof && ParseItem(known, toks, i, m) == Done((r, j))
    ensures r.Valid() && j <= |toks| && ParseInto(known, toks, i, m) == ParseInto(known, toks, j, r)
  {
    hide ParseItem, Memory.Valid;
  }

  lemma IntoTag(known: Functions, toks: seq<Token>, i: nat, m: Memory, r: Memory, j: nat)
    requires i < |toks| && m.Valid() && TokenAt(toks, i) == StatementOpen
    requires ParseStatement(known, toks, i + 1, m, StatementClose) == Done((r, j))
    requires TokenAt(toks, j) == StatementClose
    ensures r.Valid() && j < |toks| && ParseInto(known, toks, i, m) == ParseInto(known, toks, j + 1, r)
  {
    hide ParseStatement, ParseInto, ParseExpression, Memory.Valid, Memory.Add;
    assert ParseItem(known, toks, i, m) == Done((r, j + 1));
    IntoItem(known, toks, i, m, r, j + 1);
  }

  lemma ReadsCondition(c: Expr, known: Functions, toks: seq<Token>, i: nat)
    requires WellFormed(c, known) && At(toks, i, Print(c)) && TokenAt(toks, i + |Print(c)|) == StatementClose
    ensures i <= |toks| && Condition(known, toks, i, StatementClose) == Done((Some(c), i + |Print(c)|))
  {
    hide At, Print, WellFormed, Loop;
    assert Stops(StatementClose);
    ReadsClosed(c, known, toks, i);
  }

  lemma ReadsIf(c: Expr, known: Functions, toks: seq<Token>, i: nat, m: Memory)
    requires WellFormed(c, known) && m.Valid()
    requires At(toks, i, Tag([Id("if")] + Print(c)))
    ensures var j := i + |Tag([Id("if")] + Print(c))|;
      && j <= |toks| && m.OpenIf(Some(c), false).Valid()
      && ParseInto(known, toks, i, m) == ParseInto(known, toks, j, m.OpenIf(Some(c), false))
  {
    hide At, Print, WellFormed, ParseInto, Condition;
    AtTag(toks, i, [Id("if")] + Print(c));
    TokenThen(toks, i + 1, Id("if"), Print(c));
    ReadsCondition(c, known, toks, i + 2);
    IntoTag(known, toks, i, m, m.OpenIf(Some(c), false), i + 2 + |Print(c)|);
  }

  lemma ReadsElseWord(known: Functions, toks: seq<Token>, i: nat, m: Memory)
    requires m.Valid() && m.ifStack != [] && At(toks, i, Tag([Id("else")]))
    ensures var j := i + |Tag([Id("else")])|;
      && j <= |toks| && m.TakeElse().Valid()
      && ParseInto(known, toks, i, m) == ParseInto(known, toks, j, m.TakeElse())
  {
    hide At, ParseInto;
    AtTag(toks, i, [Id("else")]);
    AtOne(toks, i + 1, Id("else"));
    IntoTag(known, toks, i, m, m.TakeElse(), i + 2);
  }

  lemma ElseIfStatement(known: Functions, toks: seq<Token>, i: nat, e: Option<Expr>, j: nat, m: Memory)
    requires i + 2 <= |toks| && m.Valid() && m.ifStack != []
    requires TokenAt(toks, i) == Id("else") && TokenAt(toks, i + 1) == Id("if")
    requires Condition(known, toks, i + 2, StatementClose) == Done((e, j))
    ensures m.TakeElse().Valid()
    ensures ParseStatement(known, toks, i, m, StatementClose) == Done((m.TakeElse().OpenIf(e, true), j))
  {
    TakeElseFacts(m);
    hide Condition, Grows, Memory.Add, Memory.TakeElse, Memory.OpenIf, Memory.Valid, ParseFor, ParseSet, Memory.CloseIf,
      Memory.CloseFor;
  }

  lemma ReadsElseIf(c: Expr, known: Functions, toks: seq<Token>, i: nat, m: Memory)
    requires WellFormed(c, known) && m.Valid() && m.ifStack != []
    requires At(toks, i, Tag([Id("else"), Id("if")] + Print(c)))
    requires m.TakeElse().Valid()
    ensures var j := i + |Tag([Id("else"), Id("if")] + Print(c))|; var r := m.TakeElse().OpenIf(Some(c), true);
      && j <= |toks| && r.Valid()
      && ParseInto(known, toks, i, m) == ParseInto(known, toks, j, r)
  {
    hide *;
    var ts := [Id("else"), Id("if")] + Print(c);
    assert ts == [Id("else")] + ([Id("if")] + Print(c));
    AtTag(toks, i, ts);
    TokenThen(toks, i + 1, Id("else"), [Id("if")] + Print(c));
    TokenThen(toks, i + 2, Id("if"), Print(c));
    ReadsCondition(c, known, toks, i + 3);
    ElseIfStatement(known, toks, i + 1, Some(c), i + 3 + |Print(c)|, m);
    IntoStatement(known, toks, i, ts, m, m.TakeElse().OpenIf(Some(c), true));
  }

  lemma ReadsEndIf(known: Functions, toks: seq<Token>, i: nat, m: Memory)
    requires m.Valid() && m.ifStack != [] && At(toks, i, Tag([Id("endif")])) && m.CloseIf().Valid()
    ensures var j := i + |Tag([Id("endif")])|;
      j <= |toks| && ParseInto(known, toks, i, m) == ParseInto(known, toks, j, m.CloseIf())
  {
    hide At, ParseInto, Memory.CloseIf;
    AtTag(toks, i, [Id("endif")]);
    AtOne(toks, i + 1, Id("endif"));
    IntoTag(known, toks, i, m, m.CloseIf(), i + 2);
  }

  lemma ReadsFor(key: Option<string>, value: string, c: Expr, known: Functions, toks: seq<Token>, i: nat, m: Memory)
    requires WellFormed(c, known) && m.Valid()
    requires At(toks, i, Tag([Id("for")] + (ForNames(key, value) + ([Id("in")] + Print(c)))))
    ensures var j := i + |Tag([Id("for")] + (ForNames(key, value) + ([Id("in")] + Print(c))))|;
      var r := m.OpenFor(key, value, Some(c));
      && j <= |toks| && r.Valid()
      && ParseInto(known, toks, i, m) == ParseInto(known, toks, j, r)
  {
    hide At, Print, WellFormed, ParseInto, Condition, Memory.OpenFor;
    var names := ForNames(key, value);
    var rest := [Id("in")] + Print(c);
    AtTag(toks, i, [Id("for")] + (names + rest));
    TokenThen(toks, i + 1, Id("for"), names + rest);
    AtSplit(toks, i + 2, names, rest);
    var k := i + 2 + |names|;
    TokenThen(toks, k, Id("in"), Print(c));
    ReadsForNames(key, value, toks, i + 2, k);
    ReadsCondition(c, known, toks, k + 1);
    IntoTag(known, toks, i, m, m.OpenFor(key, value, Some(c)), k + 1 + |Print(c)|);
  }

  lemma ReadsForNames(key: Option<string>, value: string, toks: seq<Token>, i: nat, k: nat)
    requires At(toks, i, ForNames(key, value)) && k == i + |ForNames(key, value)|
    requires TokenAt(toks, k) == Id("in")
    ensures key.None? ==> k == i + 1 && TokenAt(toks, i) == Id(value) && TokenAt(toks, i + 1) != Comma
    ensures key.Some? ==> k == i + 3 && TokenAt(toks, i) == Id(key.value)
    ensures key.Some? ==> TokenAt(toks, i + 1) == Comma && TokenAt(toks, i + 2) == Id(value)
  {
    hide At;
    if key.None? {
      AtOne(toks, i, Id(value));
    } else {
      assert ForNames(key, value) == [Id(key.value)] + ([Comma] + [Id(value)]);
      TokenThen(toks, i, Id(key.value), [Comma] + [Id(value)]);
      TokenThen(toks, i + 1, Comma, [Id(value)]);
      AtOne(toks, i + 2, Id(value));
    }
  }

  lemma ReadsEndFor(known: Functions, toks: seq<Token>, i: nat, m: Memory)
    requires m.Valid() && m.forStack != [] && At(toks, i, Tag([Id("endfor")])) && m.CloseFor().Valid()
    ensures var j := i + |Tag([Id("endfor")])|;
      j <= |toks| && ParseInto(known, toks, i, m) == ParseInto(known, toks, j, m.CloseFor())
  {
    hide At, ParseInto, Memory.CloseFor;
    AtTag(toks, i, [Id("endfor")]);
    AtOne(toks, i + 1, Id("endfor"));
    IntoTag(known, toks, i, m, m.CloseFor(), i + 2);
  }

  /** A statement that parses to `r` up to its closing delimiter. */
  lemma IntoStatement(known: Functions, toks: seq<Token>, i: nat, ts: seq<Token>, m: Memory, r: Memory)
    requires m.Valid() && At(toks, i, Tag(ts))
    requires ParseStatement(known, toks, i + 1, m, StatementClose) == Done((r, i + 1 + |ts|))
    ensures r.Valid() && i + |Tag(ts)| <= |toks|
    ensures ParseInto(known, toks, i, m) == ParseInto(known, toks, i + |Tag(ts)|, r)
  {
    hide At, ParseStatement, ParseInto, Memory.Valid;
    AtTag(toks, i, ts);
    IntoTag(known, toks, i, m, r, i + 1 + |ts|);
  }

  lemma SetStatement(key: string, e: Option<Expr>, known: Functions, toks: seq<Token>, i: nat, j: nat, m: Memory)
    requires m.Valid() && i + 3 <= |toks|
    requires TokenAt(toks, i) == Id("set") && TokenAt(toks, i + 1) == Id(key) && TokenAt(toks, i + 2) == Unknown("=")
    requires Condition(known, toks, i + 3, StatementClose) == Done((e, j))
    ensures ParseStatement(known, toks, i, m, StatementClose) == Done((m.Add(SetNode(key, e)), j))
  {
    hide Condition, Memory.Add, Memory.Valid, ParseIf, ParseElse, ParseFor, TokenAt, Memory.CloseIf, Memory.CloseFor;
  }

  lemma ReadsSet(key: string, e: Expr, known: Functions, toks: seq<Token>, i: nat, m: Memory)
    requires WellFormed(e, known) && m.Valid()
    requires At(toks, i, Tag([Id("set"), Id(key), Unknown("=")] + Print(e)))
    ensures var j := i + |Tag([Id("set"), Id(key), Unknown("=")] + Print(e))|;
      var r := m.Add(SetNode(key, Some(e)));
      && j <= |toks| && r.Valid()
      && ParseInto(known, toks, i, m) == ParseInto(known, toks, j, r)
  {
    hide *;
    var ts := [Id("set"), Id(key), Unknown("=")] + Print(e);
    assert ts == [Id("set")] + ([Id(key)] + ([Unknown("=")] + Print(e)));
    AtTag(toks, i, ts);
    TokenThen(toks, i + 1, Id("set"), [Id(key)] + ([Unknown("=")] + Print(e)));
    TokenThen(toks, i + 2, Id(key), [Unknown("=")] + Print(e));
    TokenThen(toks, i + 3, Unknown("="), Print(e));
    ReadsCondition(e, known, toks, i + 4);
    SetStatement(key, Some(e), known, toks, i + 1, i + 4 + |Print(e)|, m);
    IntoStatement(known, toks, i, ts, m, m.Add(SetNode(key, Some(e))));
  }

  lemma IntoOutput(known: Functions, toks: seq<Token>, i: nat, e: Option<Expr>, j: nat, m: Memory)
    requires i < |toks| && m.Valid() && TokenAt(toks, i) == ExpressionOpen
    requires ParseExpression(known, toks, i + 1) == Done((e, j)) && TokenAt(toks, j) == ExpressionClose && i < j
    ensures j < |toks| && m.Add(OutputNode(e)).Valid()
    ensures ParseInto(known, toks, i, m) == ParseInto(known, toks, j + 1, m.Add(OutputNode(e)))
  {
    hide ParseStatement, ParseInto, ParseExpression, Memory.Valid, Memory.Add;
    assert ParseItem(known, toks, i, m) == Done((m.Add(OutputNode(e)), j + 1));
    IntoItem(known, toks, i, m, m.Add(OutputNode(e)), j + 1);
  }

  lemma ReadsOutput(e: Expr, known: Functions, toks: seq<Token>, i: nat, m: Memory)
    requires WellFormed(e, known) && m.Valid()
    requires At(toks, i, [ExpressionOpen] + (Print(e) + [ExpressionClose]))
    ensures var j := i + |Print(e)| + 2; var r := m.Add(OutputNode(Some(e)));
      && j <= |toks| && r.Valid()
      && ParseInto(known, toks, i, m) == ParseInto(known, toks, j, r)
  {
    hide *;
    TokenThen(toks, i, ExpressionOpen, Print(e) + [ExpressionClose]);
    AtSplit(toks, i + 1, Print(e), [ExpressionClose]);
    AtOne(toks, i + 1 + |Print(e)|, ExpressionClose);
    CloseStops();
    ReadsClosed(e, known, toks, i + 1);
    StartsExpression(known, toks, i + 1);
    IntoOutput(known, toks, i, Some(e), i + 1 + |Print(e)|, m);
  }

  lemma CloseStops()
    ensures Stops(ExpressionClose)
  {
  }

  lemma StartsExpression(known: Functions, toks: seq<Token>, i: nat)
    requires i <= |toks|
    ensures ParseExpression(known, toks, i) == Loop(known, toks, i, Stacks([], []))
  {
  }

  lemma ReadsText(text: string, known: Functions, toks: seq<Token>, i: nat, m: Memory)
    requires m.Valid() && At(toks, i, [Text(text)])
    ensures i < |toks| && m.Add(TextNode(text)).Valid()
    ensures ParseInto(known, toks, i, m) == ParseInto(known, toks, i + 1, m.Add(TextNode(text)))
  {
    AddBalanced(m, TextNode(text));
    AtOne(toks, i, Text(text));
    hide Memory.Add;
  }

  /** The parser reads a printed block and does with the memory what `BuildBlock` says. */
  lemma {:induction false} ReadsBlock(b: seq<Stmt>, known: Functions, toks: seq<Token>, i: nat, m: Memory)
    requires BlockOk(b, known) && m.Valid() && At(toks, i, PrintBlock(b))
    ensures i + |PrintBlock(b)| <= |toks|
    ensures ParseInto(known, toks, i, m) == ParseInto(known, toks, i + |PrintBlock(b)|, BuildBlock(m, b))
    decreases b
  {
    AtBound(toks, i, PrintBlock(b));
    if b != [] {
      hide *;
      ReadsCons(b, b[0], b[1..], known, toks, i, m);
    }
  }

  lemma ConsParts(b: seq<Stmt>, known: Functions, m: Memory)
    requires b != [] && BlockOk(b, known) && m.Valid()
    ensures StmtOk(b[0], known) && BlockOk(b[1..], known)
    ensures PrintBlock(b) == PrintStmt(b[0]) + PrintBlock(b[1..])
    ensures Build(m, b[0]).Valid() && BuildBlock(m, b) == BuildBlock(Build(m, b[0]), b[1..])
  {
    hide Memory.Valid;
  }

  lemma {:induction false} ReadsCons(
      b: seq<Stmt>, first: Stmt, rest: seq<Stmt>, known: Functions, toks: seq<Token>, i: nat, m: Memory)
    requires b != [] && first == b[0] && rest == b[1..]
    requires BlockOk(b, known) && m.Valid() && At(toks, i, PrintBlock(b))
    ensures i + |PrintBlock(b)| <= |toks|
    ensures ParseInto(known, toks, i, m) == ParseInto(known, toks, i + |PrintBlock(b)|, BuildBlock(m, b))
    decreases b, 0
  {
    hide *;
    ConsParts(b, known, m);
    AtSplit(toks, i, PrintStmt(first), PrintBlock(rest));
    ReadsStmt(first, known, toks, i, m);
    ReadsBlock(rest, known, toks, i + |PrintStmt(first)|, Build(m, first));
  }

  lemma {:induction false} ReadsStmt(s: Stmt, known: Functions, toks: seq<Token>, i: nat, m: Memory)
    requires StmtOk(s, known) && m.Valid() && At(toks, i, PrintStmt(s))
    ensures i + |PrintStmt(s)| <= |toks| && Build(m, s).Valid()
    ensures ParseInto(known, toks, i, m) == ParseInto(known, toks, i + |PrintStmt(s)|, Build(m, s))
    decreases s
  {
    hide At, ParseInto, Tag, Print, WellFormed, BlockOk, PrintBlock, ElseOk, PrintElse, BuildBlock, BuildElse, ForNames;
    match s
    case Plain(text) => ReadsText(text, known, toks, i, m);
    case Output(e) => ReadsOutput(e, known, toks, i, m);
    case SetStmt(key, e) => ReadsSet(key, e, known, toks, i, m);
    case IfStmt(_, _, _) => ReadsIfStmt(s, known, toks, i, m);
    case ForStmt(_, _, _, _) => ReadsForStmt(s, known, toks, i, m);
  }

  lemma {:induction false} ReadsIfStmt(s: Stmt, known: Functions, toks: seq<Token>, i: nat, m: Memory)
    requires s.IfStmt? && StmtOk(s, known) && m.Valid() && At(toks, i, PrintStmt(s))
    ensures i + |PrintStmt(s)| <= |toks| && Build(m, s).Valid()
    ensures ParseInto(known, toks, i, m) == ParseInto(known, toks, i + |PrintStmt(s)|, Build(m, s))
    decreases s, 0
  {
    hide At, ParseInto, Tag, Print, WellFormed, BlockOk, PrintBlock, ElseOk, PrintElse, BuildBlock, BuildElse,
      Memory.OpenIf, Memory.CloseIf, Memory.Valid;
    var open, close := Tag([Id("if")] + Print(s.condition)), Tag([Id("endif")]);
    var thn, els := PrintBlock(s.thn), PrintElse(s.els);
    AtSplit(toks, i, open, thn + (els + close));
    var j := i + |open|;
    AtSplit(toks, j, thn, els + close);
    var k := j + |thn|;
    AtSplit(toks, k, els, close);
    var l := k + |els|;
    var o := m.OpenIf(Some(s.condition), false);
    OpenIfFacts(m, Some(s.condition), false);
    ReadsIf(s.condition, known, toks, i, m);
    ReadsBlock(s.thn, known, toks, j, o);
    var r := BuildElse(BuildBlock(o, s.thn), s.els);
    ReadsElse(s.els, known, toks, k, BuildBlock(o, s.thn));
    assert r.ifStack != [] && Build(m, s) == r.CloseIf();
    ReadsEndIf(known, toks, l, r);
  }

  lemma {:induction false} ReadsForStmt(s: Stmt, known: Functions, toks: seq<Token>, i: nat, m: Memory)
    requires s.ForStmt? && StmtOk(s, known) && m.Valid() && At(toks, i, PrintStmt(s))
    ensures i + |PrintStmt(s)| <= |toks| && Build(m, s).Valid()
    ensures ParseInto(known, toks, i, m) == ParseInto(known, toks, i + |PrintStmt(s)|, Build(m, s))
    decreases s, 0
  {
    hide At, ParseInto, Tag, Print, WellFormed, BlockOk, PrintBlock, BuildBlock, ForNames,
      Memory.OpenFor, Memory.CloseFor, Memory.Valid;
    var open := Tag([Id("for")] + (ForNames(s.key, s.value) + ([Id("in")] + Print(s.condition))));
    var body, close := PrintBlock(s.body), Tag([Id("endfor")]);
    AtSplit(toks, i, open, body + close);
    var j := i + |open|;
    AtSplit(toks, j, body, close);
    var o := m.OpenFor(s.key, s.value, Some(s.condition));
    OpenForFacts(m, s.key, s.value, Some(s.condition));
    ReadsFor(s.key, s.value, s.condition, known, toks, i, m);
    ReadsBlock(s.body, known, toks, j, o);
    assert Build(m, s) == BuildBlock(o, s.body).CloseFor();
    ReadsEndFor(known, toks, j + |body|, BuildBlock(o, s.body));
  }

  lemma {:induction false} ReadsElse(e: Else, known: Functions, toks: seq<Token>, i: nat, m: Memory)
    requires ElseOk(e, known) && m.Valid() && m.ifStack != [] && At(toks, i, PrintElse(e))
    ensures i + |PrintElse(e)| <= |toks|
    ensures ParseInto(known, toks, i, m) == ParseInto(known, toks, i + |PrintElse(e)|, BuildElse(m, e))
    decreases e
  {
    AtBound(toks, i, PrintElse(e));
    if !e.NoElse? {
      hide *;
      if e.ElseBranch? {
        ReadsElseBranch(e, known, toks, i, m);
      } else {
        ReadsElseIfChain(e, known, toks, i, m);
      }
    }
  }

  lemma ElseBranchParts(e: Else, known: Functions, m: Memory)
    requires e.ElseBranch? && ElseOk(e, known) && m.Valid() && m.ifStack != []
    ensures BlockOk(e.body, known) && m.TakeElse().Valid()
    ensures PrintElse(e) == Tag([Id("else")]) + PrintBlock(e.body)
    ensures BuildElse(m, e) == BuildBlock(m.TakeElse(), e.body)
  {
    TakeElseFacts(m);
    hide BlockOk, PrintBlock, BuildBlock, Tag, Memory.TakeElse, Memory.Valid, Grows;
  }

  lemma {:induction false} ReadsElseBranch(e: Else, known: Functions, toks: seq<Token>, i: nat, m: Memory)
    requires e.ElseBranch? && ElseOk(e, known) && m.Valid() && m.ifStack != [] && At(toks, i, PrintElse(e))
    ensures i + |PrintElse(e)| <= |toks|
    ensures ParseInto(known, toks, i, m) == ParseInto(known, toks, i + |PrintElse(e)|, BuildElse(m, e))
    decreases e, 0
  {
    hide *;
    ElseBranchParts(e, known, m);
    AtSplit(toks, i, Tag([Id("else")]), PrintBlock(e.body));
    ReadsElseWord(known, toks, i, m);
    ReadsBlock(e.body, known, toks, i + |Tag([Id("else")])|, m.TakeElse());
  }

  lemma ElseIfParts(e: Else, known: Functions, m: Memory)
    requires e.ElseIf? && ElseOk(e, known) && m.Valid() && m.ifStack != []
    ensures WellFormed(e.condition, known) && BlockOk(e.thn, known) && ElseOk(e.els, known)
    ensures m.TakeElse().Valid() && m.TakeElse().ifStack != []
    ensures PrintElse(e) ==
      Tag([Id("else"), Id("if")] + Print(e.condition)) + (PrintBlock(e.thn) + PrintElse(e.els))
    ensures var o := m.TakeElse().OpenIf(Some(e.condition), true);
      && o.Valid() && BuildBlock(o, e.thn).Valid() && BuildBlock(o, e.thn).ifStack != []
      && BuildElse(m, e) == BuildElse(BuildBlock(o, e.thn), e.els)
  {
    TakeElseFacts(m);
    OpenIfFacts(m.TakeElse(), Some(e.condition), true);
    hide BlockOk, PrintBlock, BuildBlock, Tag, WellFormed, Memory.TakeElse, Memory.OpenIf, Memory.Valid, Grows;
  }

  lemma {:induction false} ReadsElseIfChain(e: Else, known: Functions, toks: seq<Token>, i: nat, m: Memory)
    requires e.ElseIf? && ElseOk(e, known) && m.Valid() && m.ifStack != [] && At(toks, i, PrintElse(e))
    ensures i + |PrintElse(e)| <= |toks|
    ensures ParseInto(known, toks, i, m) == ParseInto(known, toks, i + |PrintElse(e)|, BuildElse(m, e))
    decreases e, 0
  {
    hide *;
    ElseIfParts(e, known, m);
    var open := Tag([Id("else"), Id("if")] + Print(e.condition));
    AtSplit(toks, i, open, PrintBlock(e.thn) + PrintElse(e.els));
    var j := i + |open|;
    AtSplit(toks, j, PrintBlock(e.thn), PrintElse(e.els));
    var o := m.TakeElse().OpenIf(Some(e.condition), true);
    ReadsElseIf(e.condition, known, toks, i, m);
    ReadsBlock(e.thn, known, toks, j, o);
    ReadsElse(e.els, known, toks, j + |PrintBlock(e.thn)|, BuildBlock(o, e.thn));
  }
}
