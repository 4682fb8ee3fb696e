/**
 The grouping of expressions by the names of their operators, and the place of `not`: what an author of templates
 relies on, without the numbers of the precedence table.
 */
module InjaPrecedence {
  import opened Sequences
  import opened InjaSyntax
  import opened InjaExpression
  import opened InjaExpressionProof
  import opened InjaOperatorOrder
  import opened InjaGrouping
  import opened InjaAcceptance

  // ---- Families of operators ----

  predicate Logical(op: Op) {
    op == And || op == Or
  }

  predicate Relational(op: Op) {
    op in {In, Equal, NotEqual, Greater, GreaterEqual, Less, LessEqual}
  }

  predicate Additive(op: Op) {
    op == Add || op == Subtract
  }

  predicate Multiplicative(op: Op) {
    op == Multiplication || op == Division || op == Modulo
  }

  /** Operators of two operands: a family each, the power, and the dot of a pointer. */
  predicate SameFamily(p: Op, q: Op) {
    || (Logical(p) && Logical(q)) || (Relational(p) && Relational(q)) || (Additive(p) && Additive(q))
    || (Multiplicative(p) && Multiplicative(q)) || (p == Power && q == Power) || (p == AtId && q == AtId)
  }

  /** From the loosest to the tightest: logical, relational, additive, multiplicative, power, dot. */
  predicate Looser(p: Op, q: Op) {
    || (Logical(p) && (Relational(q) || Additive(q) || Multiplicative(q) || q == Power || q == AtId))
    || (Relational(p) && (Additive(q) || Multiplicative(q) || q == Power || q == AtId))
    || (Additive(p) && (Multiplicative(q) || q == Power || q == AtId))
    || (Multiplicative(p) && (q == Power || q == AtId))
    || (p == Power && q == AtId)
  }

  // ---- Two operators of two operands ----

  lemma ByName(p: Op, q: Op)
    requires p != Not && q != Not
    ensures Pops(p, q) <==> !Looser(p, q) && !(p == Power && q == Power)
    ensures SameFamily(p, q) || Looser(p, q) || Looser(q, p)
    ensures !(Looser(p, q) && Looser(q, p)) && !(SameFamily(p, q) && Looser(p, q))
  {
    FamilyOf(p);
    FamilyOf(q);
    hide Precedence, Logical, Relational, Additive, Multiplicative;
  }

  lemma FamilyOf(p: Op)
    requires p != Not
    ensures Logical(p) <==> Precedence(p) == 1
    ensures Relational(p) <==> Precedence(p) == 2
    ensures Additive(p) <==> Precedence(p) == 3
    ensures Multiplicative(p) <==> Precedence(p) == 4
    ensures p == Power <==> Precedence(p) == 5
    ensures p == AtId <==> Precedence(p) == 8
    ensures 1 <= Precedence(p) <= 5 || Precedence(p) == 8
  {
  }

  /** The tokens are read as one expression, to their end. */
  predicate ReadAs(known: Functions, toks: seq<Token>, e: Expr) {
    ParseExpression(known, toks, 0) == Done((Some(e), |toks|))
  }

  /**
   a p b q c: the tighter of two operators takes the middle operand; of two operators of one family the first
   takes it, but of two powers the second.
   */
  lemma Groups(a: Expr, p: Op, b: Expr, q: Op, c: Expr, known: Functions)
    requires Atom(a) && Atom(b) && Atom(c) && p != Not && q != Not
    requires WellFormed(a, known) && WellFormed(b, known) && WellFormed(c, known)
    ensures SameFamily(p, q) || Looser(p, q) || Looser(q, p)
    ensures Looser(p, q) ==> ReadAs(known, Chain(a, p, b, q, c), Binary(p, a, Binary(q, b, c)))
    ensures Looser(q, p) ==> ReadAs(known, Chain(a, p, b, q, c), Binary(q, Binary(p, a, b), c))
    ensures SameFamily(p, q) && p != Power ==> ReadAs(known, Chain(a, p, b, q, c), Binary(q, Binary(p, a, b), c))
    ensures p == q == Power ==> ReadAs(known, Chain(a, p, b, q, c), Binary(p, a, Binary(q, b, c)))
  {
    ByName(p, q);
    PowerIsLast(p, q);
    ChainNests(a, p, b, q, c, known);
    hide ParseExpression, Chain, WellFormed, Looser, SameFamily, Precedence;
  }

  lemma PowerIsLast(p: Op, q: Op)
    requires p != Not && q != Not
    ensures Pops(p, q) <==> Precedence(p) > Precedence(q) || (Precedence(p) == Precedence(q) && q != Power)
    ensures SameFamily(p, q) && p != Power ==> q != Power
  {
  }

  // ---- The place of not ----

  /** not a p b */
  function NotFirst(a: Expr, p: Op, b: Expr): seq<Token> {
    [Id("not")] + (Print(a) + ([OperatorToken(p)] + Print(b)))
  }

  /** a p not b */
  function NotSecond(a: Expr, p: Op, b: Expr): seq<Token> {
    Print(a) + ([OperatorToken(p)] + ([Id("not")] + Print(b)))
  }

  predicate Binding(p: Op) {
    p == Power || p == AtId
  }

  lemma NotAgainst(p: Op)
    requires p != Not
    ensures Pops(Not, p) <==> !Binding(p)
    ensures Pops(p, Not) <==> Multiplicative(p) || Binding(p)
    ensures OperatorToken(Not) == Id("not")
  {
  }

  lemma PrintedInfix(a: Expr, p: Op, b: Expr)
    requires Atom(b) && !LeftNeedsParens(p, a)
    ensures Print(Binary(p, a, b)) == Print(a) + ([OperatorToken(p)] + Print(b))
  {
    hide Pops, OperatorToken;
  }

  lemma PrintedNot(a: Expr)
    requires !RightNeedsParens(Not, a)
    ensures Print(Prefix(a)) == [OperatorToken(Not)] + Print(a)
  {
    hide Pops, OperatorToken;
  }

  lemma NotFirstPrints(a: Expr, p: Op, b: Expr)
    requires Atom(a) && Atom(b) && p != Not
    ensures !Binding(p) ==> NotFirst(a, p, b) == Print(Binary(p, Prefix(a), b))
    ensures Binding(p) ==> NotFirst(a, p, b) == Print(Prefix(Binary(p, a, b)))
  {
    NotAgainst(p);
    var x, y := Print(a), [OperatorToken(p)] + Print(b);
    hide Pops, Print, OperatorToken, Binding;
    assert [Id("not")] + (x + y) == ([Id("not")] + x) + y;
    if Binding(p) {
      PrintedInfix(a, p, b);
      PrintedNot(Binary(p, a, b));
    } else {
      PrintedNot(a);
      PrintedInfix(Prefix(a), p, b);
    }
  }

  lemma PrintedSecondNot(a: Expr, p: Op, b: Expr)
    requires Atom(a) && !Pops(p, Not) && OperatorToken(Not) == Id("not") && Print(Prefix(b)) == [Id("not")] + Print(b)
    ensures Print(Binary(p, a, Prefix(b))) == NotSecond(a, p, b)
  {
    hide Pops, OperatorToken;
  }

  lemma OperandsFit(a: Expr, p: Op, b: Expr, known: Functions)
    requires p != Not && WellFormed(a, known) && WellFormed(b, known)
    ensures WellFormed(Binary(p, Prefix(a), b), known) && WellFormed(Prefix(Binary(p, a, b)), known)
    ensures WellFormed(Binary(p, a, Prefix(b)), known) && WellFormed(Prefix(b), known)
  {
  }

  /** A `not` before an operator takes its first operand, but before a power or a dot the whole operation. */
  lemma NotBefore(a: Expr, p: Op, b: Expr, known: Functions)
    requires Atom(a) && Atom(b) && p != Not && WellFormed(a, known) && WellFormed(b, known)
    ensures Logical(p) || Relational(p) || Additive(p) || Multiplicative(p) ==>
      ReadAs(known, NotFirst(a, p, b), Binary(p, Prefix(a), b))
    ensures p == Power || p == AtId ==> ReadAs(known, NotFirst(a, p, b), Prefix(Binary(p, a, b)))
  {
    NotFirstPrints(a, p, b);
    OperandsFit(a, p, b, known);
    hide ParseExpression, NotFirst, Print, WellFormed;
    if Binding(p) {
      ExpressionRoundTrip(Prefix(Binary(p, a, b)), known);
    } else {
      ExpressionRoundTrip(Binary(p, Prefix(a), b), known);
    }
  }

  /** A `not` after a logical, relational or additive operator takes the second operand; after others it is an error. */
  lemma NotAfter(a: Expr, p: Op, b: Expr, known: Functions)
    requires Atom(a) && Atom(b) && p != Not && WellFormed(a, known) && WellFormed(b, known)
    ensures Logical(p) || Relational(p) || Additive(p) ==> ReadAs(known, NotSecond(a, p, b), Binary(p, a, Prefix(b)))
    ensures Multiplicative(p) || p == Power || p == AtId ==> ParseExpression(known, NotSecond(a, p, b), 0).Throw?
  {
    NotAgainst(p);
    OperandsFit(a, p, b, known);
    hide ParseExpression, NotSecond, Print, WellFormed, Pops, OperatorToken;
    PrintedNot(b);
    if Multiplicative(p) || Binding(p) {
      NotIsRejected(Some(a), p, Prefix(b), known);
      RejectedTokens(a, p, b);
    } else {
      PrintedSecondNot(a, p, b);
      ExpressionRoundTrip(Binary(p, a, Prefix(b)), known);
    }
  }

  lemma RejectedTokens(a: Expr, p: Op, b: Expr)
    requires Atom(a) && Print(Prefix(b)) == [Id("not")] + Print(b)
    ensures Before(Some(a), p) + ([OperatorToken(p)] + Print(Prefix(b))) == NotSecond(a, p, b)
  {
    hide Pops, OperatorToken, Print;
  }

  /** A `not` of a `not` is an error without parentheses. */
  lemma NotNot(a: Expr, known: Functions)
    requires Atom(a) && WellFormed(a, known)
    ensures ParseExpression(known, [Id("not")] + ([Id("not")] + Print(a)), 0).Throw?
  {
    PrintedNot(a);
    NotIsRejected(None, Not, Prefix(a), known);
    hide ParseExpression, Print, WellFormed;
    assert [] + ([Id("not")] + Print(Prefix(a))) == [Id("not")] + Print(Prefix(a));
  }

  // ---- One operator ----

  lemma Infix(known: Functions, x: Token, y: Token, op: Op)
    requires IsOperand(x) && IsOperand(y) && op != Not
    ensures ReadAs(known, [x, OperatorToken(op), y], Binary(op, OperandOf(x), OperandOf(y)))
  {
    PlainOperator(op);
    hide IsOperand, OperandOf, Loop, Reduce, ReduceAll, OperatorToken, TokenOperator;
    var toks, a, b := [x, OperatorToken(op), y], OperandOf(x), OperandOf(y);
    StartExpression(known, toks);
    ReadOperand(known, toks, 0, [], []);
    assert [] + [a] == [a] && [a] + [b] == [a, b] && [] + [op] == [op];
    NothingToReduce([a], op);
    ReadOperator(known, toks, 1, Stacks([a], []), op, Stacks([a], []));
    ReadOperand(known, toks, 2, [a], [op]);
    ReduceOne(a, b, op);
    ReadEnd(known, toks, Stacks([a, b], [op]), Binary(op, a, b));
  }

  /** The operation that each sign and each word stands for. */
  lemma SignsRead(known: Functions, x: Token, y: Token)
    requires IsOperand(x) && IsOperand(y)
    ensures var a, b := OperandOf(x), OperandOf(y);
      && ReadAs(known, [x, Id("and"), y], Binary(And, a, b)) && ReadAs(known, [x, Id("or"), y], Binary(Or, a, b))
      && ReadAs(known, [x, Id("in"), y], Binary(In, a, b))
      && ReadAs(known, [x, Sign(EqualSign), y], Binary(Equal, a, b))
      && ReadAs(known, [x, Sign(NotEqualSign), y], Binary(NotEqual, a, b))
      && ReadAs(known, [x, Sign(Symbol.GreaterThan), y], Binary(Greater, a, b))
      && ReadAs(known, [x, Sign(GreaterEqualSign), y], Binary(GreaterEqual, a, b))
      && ReadAs(known, [x, Sign(Symbol.LessThan), y], Binary(Less, a, b))
      && ReadAs(known, [x, Sign(LessEqualSign), y], Binary(LessEqual, a, b))
      && ReadAs(known, [x, Sign(Symbol.Plus), y], Binary(Add, a, b))
      && ReadAs(known, [x, Sign(Symbol.Minus), y], Binary(Subtract, a, b))
      && ReadAs(known, [x, Sign(Symbol.Times), y], Binary(Multiplication, a, b))
      && ReadAs(known, [x, Sign(Symbol.Slash), y], Binary(Division, a, b))
      && ReadAs(known, [x, Sign(Symbol.Percent), y], Binary(Modulo, a, b))
      && ReadAs(known, [x, Sign(PowerSign), y], Binary(Power, a, b))
      && ReadAs(known, [x, Sign(Symbol.Dot), y], Binary(AtId, a, b))
  {
    hide ReadAs, IsOperand, OperandOf;
    forall op | op != Not
      ensures ReadAs(known, [x, OperatorToken(op), y], Binary(op, OperandOf(x), OperandOf(y)))
    {
      Infix(known, x, y, op);
    }
  }

  // ---- One operand ----

  lemma Alone(known: Functions, x: Token)
    requires IsOperand(x)
    ensures ReadAs(known, [x], OperandOf(x))
  {
    hide IsOperand, OperandOf, Loop, Reduce, ReduceAll, OperatorToken, TokenOperator;
    StartExpression(known, [x]);
    ReadOperand(known, [x], 0, [], []);
    assert [] + [OperandOf(x)] == [OperandOf(x)];
    NothingLeft(OperandOf(x));
    ReadEnd(known, [x], Stacks([OperandOf(x)], []), OperandOf(x));
  }

  lemma NothingLeft(e: Expr)
    ensures ReduceAll(Stacks([e], [])) == Done(Stacks([e], []))
  {
  }

  /** Three names are literals, four are operators, and all others are data; numbers and strings are literals. */
  lemma OperandsRead(known: Functions, name: string, text: string)
    ensures name in {"true", "false", "null"} ==> ReadAs(known, [Id(name)], Literal(Id(name)))
    ensures name !in {"true", "false", "null", "and", "or", "in", "not"} ==> ReadAs(known, [Id(name)], Data(name))
    ensures ReadAs(known, [Number(text)], Literal(Number(text)))
    ensures ReadAs(known, [String(text)], Literal(String(text)))
  {
    hide ReadAs;
    if name !in {"and", "or", "in", "not"} {
      Alone(known, Id(name));
    }
    Alone(known, Number(text));
    Alone(known, String(text));
  }
}
