/**
 Parentheses and the two stacks: a sequence of operands with operators between them is read as the tree that is
 printed so, and where printing puts parentheses the same tokens without them are not read as the same tree.
 */
module InjaGrouping {
  import opened Sequences
  import opened InjaSyntax
  import opened InjaExpression
  import opened InjaExpressionProof
  import opened InjaOperatorOrder

  // ---- Operators on the stack ----

  /** An operator that waits for one that waits for a third waits for the third. */
  lemma WaitingIsTransitive(a: Op, b: Op, c: Op)
    requires !Pops(a, b) && !Pops(b, c)
    ensures !Pops(a, c)
  {
  }

  /** What gives way to `p`, which waits for `q`, also waits for `q`. */
  lemma LooserWaits(p: Op, r: Op, q: Op)
    requires Pops(p, r) && !Pops(p, q)
    ensures !Pops(r, q)
  {
  }

  /** If `p` gives way to `q`, it gives way to whatever waits for `q`. */
  lemma GivesWayToLooser(p: Op, q: Op, r: Op)
    requires Pops(p, q) && !Pops(r, q)
    ensures Pops(p, r)
  {
  }

  // ---- An operator after an expression ----

  /** What `op` and its right operand make of the expression `l` before them: they take as much of it as they can. */
  function Graft(l: Expr, op: Op, r: Expr): Expr
    decreases l
  {
    if Root(l).None? || Pops(Root(l).value, op) then Binary(op, l, r)
    else
      var a := LastOperand(l);
      var g := if RightNeedsParens(Root(l).value, a) then Binary(op, a, r) else Graft(a, op, r);
      if l.Prefix? then Prefix(g) else Binary(l.op, l.left, g)
  }

  /** What stands before the last operand of an operation. */
  function HeadTokens(e: Expr): seq<Token>
    requires Root(e).Some?
  {
    (if e.Prefix? then [] else Parenthesized(Print(e.left), LeftNeedsParens(e.op, e.left)))
    + [OperatorToken(Root(e).value)]
  }

  lemma PrintOperation(e: Expr)
    requires Root(e).Some?
    ensures var a := LastOperand(e);
      Print(e) == HeadTokens(e) + Parenthesized(Print(a), RightNeedsParens(Root(e).value, a))
  {
    hide LeftNeedsParens, RightNeedsParens, OperatorToken, Parenthesized;
  }

  /** The tokens of `op` and its right operand. */
  function TailTokens(op: Op, r: Expr): seq<Token> {
    [OperatorToken(op)] + Parenthesized(Print(r), RightNeedsParens(op, r))
  }

  lemma PrintBinaryTail(op: Op, l: Expr, r: Expr)
    ensures Print(Binary(op, l, r)) == Parenthesized(Print(l), LeftNeedsParens(op, l)) + TailTokens(op, r)
  {
    hide LeftNeedsParens, RightNeedsParens, OperatorToken, Parenthesized;
  }

  lemma GraftRoot(l: Expr, op: Op, r: Expr)
    requires op != Not && BinaryOk(l)
    ensures Root(Graft(l, op, r)) == if Root(l).None? || Pops(Root(l).value, op) then Some(op) else Root(l)
  {
    hide Pops, RightNeedsParens;
  }

  /** The operation whose last operand is replaced. */
  function WithLast(e: Expr, g: Expr): Expr
    requires Root(e).Some?
  {
    if e.Prefix? then Prefix(g) else Binary(e.op, e.left, g)
  }

  lemma PrintWithLast(e: Expr, g: Expr)
    requires Root(e).Some? && BinaryOk(e) && !RightNeedsParens(Root(e).value, g)
    ensures Print(WithLast(e, g)) == HeadTokens(e) + Print(g)
  {
    PrintOperation(WithLast(e, g));
    hide Print, RightNeedsParens, OperatorToken, LeftNeedsParens, Parenthesized;
    assert HeadTokens(WithLast(e, g)) == HeadTokens(e);
    assert LastOperand(WithLast(e, g)) == g && Root(WithLast(e, g)) == Root(e);
    assert Parenthesized(Print(g), false) == Print(g) by { ParenthesizedNot(Print(g)); }
  }

  lemma ParenthesizedNot(ts: seq<Token>)
    ensures Parenthesized(ts, false) == ts
  {
  }

  /** The last operand is replaced by what comes before a tail, and the tail. */
  lemma GraftInside(l: Expr, inner: seq<Token>, op: Op, r: Expr, g: Expr)
    requires Root(l).Some? && BinaryOk(l) && !RightNeedsParens(Root(l).value, g)
    requires inner == Parenthesized(Print(LastOperand(l)), RightNeedsParens(Root(l).value, LastOperand(l)))
    requires Print(g) == inner + TailTokens(op, r)
    ensures Print(WithLast(l, g)) == Print(l) + TailTokens(op, r)
  {
    hide *;
    PrintOperation(l);
    PrintWithLast(l, g);
    Regroup(HeadTokens(l), inner, TailTokens(op, r));
  }

  lemma Regroup(a: seq<Token>, b: seq<Token>, c: seq<Token>)
    ensures a + (b + c) == a + b + c
  {
  }

  /** The tokens of an expression, an operator and its right operand are those of the grafted tree. */
  lemma {:induction false} GraftPrints(l: Expr, op: Op, r: Expr, known: Functions)
    requires op != Not && WellFormed(l, known) && WellFormed(r, known)
    ensures Print(Graft(l, op, r)) == Print(l) + TailTokens(op, r) && WellFormed(Graft(l, op, r), known)
    decreases l
  {
    hide Print, TailTokens, Pops, HeadTokens, Parenthesized, OperatorToken;
    if Root(l).None? || Pops(Root(l).value, op) {
      PrintBinaryTail(op, l, r);
      ParenthesizedNot(Print(l));
    } else {
      var p, a := Root(l).value, LastOperand(l);
      OperandWellFormed(l, known);
      if RightNeedsParens(p, a) {
        LooserWaits(p, Root(a).value, op);
        PrintBinaryTail(op, a, r);
        GraftInside(l, Parenthesized(Print(a), true), op, r, Binary(op, a, r));
      } else {
        ParenthesizedNot(Print(a));
        GraftPrints(a, op, r, known);
        GraftRoot(a, op, r);
        GraftInside(l, Print(a), op, r, Graft(a, op, r));
      }
      WithLastWellFormed(l, Graft(l, op, r), known);
    }
  }

  lemma WithLastWellFormed(e: Expr, f: Expr, known: Functions)
    requires Root(e).Some? && WellFormed(e, known) && Root(f).Some? && WellFormed(LastOperand(f), known)
    requires f == WithLast(e, LastOperand(f))
    ensures WellFormed(f, known)
  {
  }

  // ---- Alternating sequences ----

  /** An operand and, after it, operators with an operand each. */
  type Operations = seq<(Op, Expr)>

  predicate ChainOk(first: Expr, rest: Operations, known: Functions) {
    && Atom(first) && WellFormed(first, known)
    && forall k :: 0 <= k < |rest| ==> rest[k].0 != Not && Atom(rest[k].1) && WellFormed(rest[k].1, known)
  }

  function ChainTokens(first: Expr, rest: Operations): seq<Token> {
    if rest == [] then Print(first)
    else
      var last := rest[|rest| - 1];
      ChainTokens(first, rest[..|rest| - 1]) + ([OperatorToken(last.0)] + Print(last.1))
  }

  function ChainTree(first: Expr, rest: Operations): Expr {
    if rest == [] then first
    else
      var last := rest[|rest| - 1];
      Graft(ChainTree(first, rest[..|rest| - 1]), last.0, last.1)
  }

  lemma AtomTail(op: Op, r: Expr)
    requires Atom(r)
    ensures TailTokens(op, r) == [OperatorToken(op)] + Print(r)
  {
  }

  lemma {:induction false} ChainPrints(first: Expr, rest: Operations, known: Functions)
    requires ChainOk(first, rest, known)
    ensures Print(ChainTree(first, rest)) == ChainTokens(first, rest) && WellFormed(ChainTree(first, rest), known)
  {
    hide Graft, Print, TailTokens, WellFormed;
    if rest != [] {
      var before, last := rest[..|rest| - 1], rest[|rest| - 1];
      ChainPrints(first, before, known);
      GraftPrints(ChainTree(first, before), last.0, last.1, known);
      AtomTail(last.0, last.1);
    }
  }

  /** Operands with a binary operator between any two are always accepted, and read as the tree that prints so. */
  lemma AlternatingReads(first: Expr, rest: Operations, known: Functions)
    requires ChainOk(first, rest, known)
    ensures var toks := ChainTokens(first, rest); var e := ChainTree(first, rest);
      ParseExpression(known, toks, 0) == Done((Some(e), |toks|)) && Print(e) == toks
  {
    ChainPrints(first, rest, known);
    ExpressionRoundTrip(ChainTree(first, rest), known);
    hide Print, ParseExpression, ChainTree, ChainTokens;
  }

  // ---- Parentheses around a left operand ----

  /**
   A left operand that is printed in parentheses needs them: without them its last part goes to the operator, and
   another tree is read.
   */
  lemma LeftParensNeeded(op: Op, l: Expr, r: Expr, known: Functions)
    requires op != Not && WellFormed(l, known) && WellFormed(r, known) && LeftNeedsParens(op, l)
    ensures Print(Binary(op, l, r)) == ([LeftParen] + (Print(l) + [RightParen])) + TailTokens(op, r)
    ensures var toks := Print(l) + TailTokens(op, r);
      ParseExpression(known, toks, 0) == Done((Some(Graft(l, op, r)), |toks|)) && Graft(l, op, r) != Binary(op, l, r)
  {
    PrintBinaryTail(op, l, r);
    GraftPrints(l, op, r, known);
    ExpressionRoundTrip(Graft(l, op, r), known);
    hide Print, ParseExpression, TailTokens, RightNeedsParens, Pops;
    if l.Binary? {
      SmallerLeft(l);
    }
  }

  lemma SmallerLeft(e: Expr)
    requires e.Binary?
    ensures e.left != e && e.right != e
  {
    assert e.left < e && e.right < e;
  }

  // ---- Parentheses around a right operand ----

  /** An operation on a left operand, or on none. */
  function Operation(h: Option<Expr>, op: Op, r: Expr): Expr {
    if h.Some? then Binary(op, h.value, r) else Prefix(r)
  }

  predicate OperationOk(h: Option<Expr>, op: Op, known: Functions) {
    if h.Some? then op != Not && WellFormed(h.value, known) else op == Not
  }

  function Before(h: Option<Expr>, op: Op): seq<Token> {
    if h.Some? then Parenthesized(Print(h.value), LeftNeedsParens(op, h.value)) else []
  }

  lemma PrintNode(h: Option<Expr>, op: Op, r: Expr, known: Functions)
    requires OperationOk(h, op, known)
    ensures Print(Operation(h, op, r)) == Before(h, op) + TailTokens(op, r)
    ensures Root(Operation(h, op, r)) == Some(op)
  {
    hide LeftNeedsParens, RightNeedsParens, OperatorToken, Parenthesized;
  }

  /** The first token of the printed expression is a `not`. */
  predicate StartsWithNot(e: Expr) {
    e.Prefix? || (e.Binary? && !LeftNeedsParens(e.op, e.left) && StartsWithNot(e.left))
  }

  /** What an operator with its left operand, or none, makes of the expression `r` after it: they take what they can. */
  function Under(h: Option<Expr>, op: Op, r: Expr): Expr
    decreases r
  {
    if r.Binary? && Pops(op, r.op) then
      Binary(r.op, if LeftNeedsParens(r.op, r.left) then Operation(h, op, r.left) else Under(h, op, r.left), r.right)
    else Operation(h, op, r)
  }

  lemma UnderRoot(h: Option<Expr>, op: Op, r: Expr, known: Functions)
    requires OperationOk(h, op, known)
    ensures Root(Under(h, op, r)) == if r.Binary? && Pops(op, r.op) then Some(r.op) else Some(op)
  {
    hide Pops, LeftNeedsParens;
  }

  lemma BareTail(op: Op, r: Expr)
    requires !RightNeedsParens(op, r)
    ensures TailTokens(op, r) == [OperatorToken(op)] + Print(r)
  {
  }

  /** The tokens of an operator before an expression without parentheses are those of the tree underneath. */
  lemma {:induction false} UnderPrints(h: Option<Expr>, op: Op, r: Expr, known: Functions)
    requires OperationOk(h, op, known) && WellFormed(r, known) && !(StartsWithNot(r) && Pops(op, Not))
    ensures Print(Under(h, op, r)) == Before(h, op) + ([OperatorToken(op)] + Print(r))
    ensures WellFormed(Under(h, op, r), known)
    decreases r
  {
    hide Print, TailTokens, Pops, Before, Parenthesized, OperatorToken;
    PrintNode(h, op, r, known);
    if r.Binary? && Pops(op, r.op) {
      var q, a := r.op, r.left;
      PrintBinaryTail(q, a, r.right);
      if LeftNeedsParens(q, a) {
        GivesWayToLooser(op, q, Root(a).value);
        PrintNode(h, op, a, known);
        UnderParenthesized(h, op, a, q, r.right);
      } else {
        UnderPrints(h, op, a, known);
        UnderRoot(h, op, a, known);
        ParenthesizedNot(Print(a));
        ParenthesizedNot(Print(Under(h, op, a)));
        PrintBinaryTail(q, Under(h, op, a), r.right);
        assert Before(h, op) + ([OperatorToken(op)] + Print(a)) + TailTokens(q, r.right)
          == Before(h, op) + ([OperatorToken(op)] + (Print(a) + TailTokens(q, r.right)));
      }
    } else {
      BareTail(op, r);
    }
  }

  lemma UnderParenthesized(h: Option<Expr>, op: Op, a: Expr, q: Op, b: Expr)
    requires RightNeedsParens(op, a) && LeftNeedsParens(q, a) && Pops(op, q)
    requires Print(Operation(h, op, a)) == Before(h, op) + TailTokens(op, a)
    requires Root(Operation(h, op, a)) == Some(op)
    ensures Print(Binary(q, Operation(h, op, a), b))
      == Before(h, op) + ([OperatorToken(op)] + (Parenthesized(Print(a), true) + TailTokens(q, b)))
  {
    hide Print, Before, Parenthesized, OperatorToken, Pops;
    var e := Operation(h, op, a);
    PrintBinaryTail(q, e, b);
    ParenthesizedNot(Print(e));
    var tail := TailTokens(q, b);
    assert TailTokens(op, a) == [OperatorToken(op)] + Parenthesized(Print(a), true);
    hide TailTokens;
    assert Before(h, op) + ([OperatorToken(op)] + Parenthesized(Print(a), true)) + tail
      == Before(h, op) + ([OperatorToken(op)] + (Parenthesized(Print(a), true) + tail));
  }

  lemma {:induction false} FirstIsNot(e: Expr)
    requires StartsWithNot(e)
    ensures Print(e) != [] && Print(e)[0] == OperatorToken(Not)
  {
    if e.Binary? {
      FirstIsNot(e.left);
      PrintBinaryTail(e.op, e.left, e.right);
      ParenthesizedNot(Print(e.left));
    } else {
      PrintPrefixTokens(e);
    }
    hide Print, OperatorToken, TailTokens;
  }

  lemma PrintPrefixTokens(e: Expr)
    requires e.Prefix?
    ensures Print(e) == [OperatorToken(Not)] + Parenthesized(Print(e.arg), RightNeedsParens(Not, e.arg))
  {
    hide OperatorToken, RightNeedsParens;
  }

  lemma LoopThrows(known: Functions, toks: seq<Token>, i: nat, s: Stacks, op: Op)
    requires i < |toks| && TokenAt(toks, i) == OperatorToken(op) && Reduce(s, op).Throw?
    ensures Loop(known, toks, i, s).Throw?
  {
    OperatorIsNoLiteral(op);
    hide IsLiteralToken, TokenOperator, OperatorToken, Reduce;
  }

  function Started(h: Option<Expr>, op: Op): Stacks {
    Stacks(if h.Some? then [h.value] else [], [op])
  }

  /** A `not` is pushed as if it came after its operand: an operator that gives way to it lacks its own. */
  lemma NotTooEarly(h: Option<Expr>, op: Op, known: Functions)
    requires Pops(op, Not) && OperationOk(h, op, known)
    ensures Reduce(Started(h, op), Not).Throw?
  {
    hide WellFormed;
  }

  lemma StartedStacks(h: Option<Expr>, op: Op)
    ensures Reduce(Stacks([], []), op) == Done(Stacks([], []))
    ensures Push(Stacks([], []), Stacks([], [op])) == Started(None, op)
    ensures h.Some? ==> Push(PushArg(Stacks([], []), h.value), Stacks([], [op])) == Started(h, op)
    ensures h.Some? ==> Before(h, op) == Parenthesized(Print(h.value), LeftNeedsParens(op, h.value))
  {
    hide Print, Parenthesized, LeftNeedsParens;
  }

  lemma LeftReduces(l: Expr, op: Op, known: Functions)
    requires WellFormed(l, known)
    ensures Waits(Stacks([], []), l)
    ensures Reduce(Push(Stacks([], []), OperandStacks(l, LeftNeedsParens(op, l))), op)
      == Done(PushArg(Stacks([], []), l))
  {
    NothingWaits(Stacks([], []), l);
    ReduceLeft(l, known, Stacks([], []), op, LeftNeedsParens(op, l));
    hide *;
  }

  lemma LeftStarts(l: Expr, op: Op, known: Functions, toks: seq<Token>)
    requires op != Not && WellFormed(l, known) && At(toks, 0, Before(Some(l), op) + [OperatorToken(op)])
    ensures var i := |Before(Some(l), op)| + 1;
      i <= |toks| && Loop(known, toks, 0, Stacks([], [])) == Loop(known, toks, i, Started(Some(l), op))
  {
    hide *;
    StartedStacks(Some(l), op);
    LeftReduces(l, op, known);
    OperatorIsNoLiteral(op);
    var s, lp := Stacks([], []), LeftNeedsParens(op, l);
    var k := |Before(Some(l), op)|;
    AtSplit(toks, 0, Before(Some(l), op), [OperatorToken(op)]);
    AtOne(toks, k, OperatorToken(op));
    ReadsOperand(l, known, toks, 0, s, lp);
    LoopOperator(known, toks, k, Push(s, OperandStacks(l, lp)), op, PushArg(s, l));
  }

  lemma NotStarts(known: Functions, toks: seq<Token>)
    requires At(toks, 0, [OperatorToken(Not)])
    ensures 1 <= |toks| && Loop(known, toks, 0, Stacks([], [])) == Loop(known, toks, 1, Started(None, Not))
  {
    hide *;
    StartedStacks(None, Not);
    AtOne(toks, 0, OperatorToken(Not));
    LoopOperator(known, toks, 0, Stacks([], []), Not, Stacks([], []));
  }

  /** After its left operand, if it has one, an operator is on the stack. */
  lemma OperatorStarts(h: Option<Expr>, op: Op, known: Functions, toks: seq<Token>)
    requires OperationOk(h, op, known) && At(toks, 0, Before(h, op) + [OperatorToken(op)])
    ensures var i := |Before(h, op)| + 1;
      i <= |toks| && Loop(known, toks, 0, Stacks([], [])) == Loop(known, toks, i, Started(h, op))
  {
    hide Loop, At, OperatorToken, Print, LeftNeedsParens, Parenthesized, Started;
    if h.Some? {
      LeftStarts(h.value, op, known, toks);
    } else {
      assert [] + [OperatorToken(Not)] == [OperatorToken(Not)];
      NotStarts(known, toks);
    }
  }

  lemma FirstOfRest(toks: seq<Token>, before: seq<Token>, rest: seq<Token>)
    requires toks == before + rest && rest != []
    ensures |before| < |toks| && TokenAt(toks, |before|) == rest[0] && At(toks, 0, before)
  {
  }

  lemma NotIsRejected(h: Option<Expr>, op: Op, r: Expr, known: Functions)
    requires OperationOk(h, op, known) && StartsWithNot(r) && Pops(op, Not)
    ensures ParseExpression(known, Before(h, op) + ([OperatorToken(op)] + Print(r)), 0).Throw?
  {
    hide *;
    FirstIsNot(r);
    NotTooEarly(h, op, known);
    var before := Before(h, op) + [OperatorToken(op)];
    var toks := Before(h, op) + ([OperatorToken(op)] + Print(r));
    StartExpression(known, toks);
    assert toks == before + Print(r);
    FirstOfRest(toks, before, Print(r));
    OperatorStarts(h, op, known, toks);
    LoopThrows(known, toks, |before|, Started(h, op), Not);
  }

  lemma RightRegroups(h: Option<Expr>, op: Op, r: Expr, known: Functions)
    requires OperationOk(h, op, known) && WellFormed(r, known) && RightNeedsParens(op, r)
    requires !(StartsWithNot(r) && Pops(op, Not))
    ensures var toks := Before(h, op) + ([OperatorToken(op)] + Print(r));
      && ParseExpression(known, toks, 0) == Done((Some(Under(h, op, r)), |toks|))
      && Under(h, op, r) != Operation(h, op, r)
  {
    hide *;
    UnderPrints(h, op, r, known);
    ExpressionRoundTrip(Under(h, op, r), known);
    NotItself(h, op, r);
  }

  lemma PrintParenthesized(h: Option<Expr>, op: Op, r: Expr, known: Functions)
    requires OperationOk(h, op, known) && RightNeedsParens(op, r)
    ensures Print(Operation(h, op, r))
      == Before(h, op) + ([OperatorToken(op)] + ([LeftParen] + (Print(r) + [RightParen])))
  {
    hide *;
    PrintNode(h, op, r, known);
    ParenthesizedTail(op, r);
  }

  /**
   An operand after an operator that is printed in parentheses needs them: without them the operator applies too
   early, so that another tree is read, or nothing if the operand starts with a `not`.
   */
  lemma RightParensNeeded(h: Option<Expr>, op: Op, r: Expr, known: Functions)
    requires OperationOk(h, op, known) && WellFormed(r, known) && RightNeedsParens(op, r)
    ensures Print(Operation(h, op, r))
      == Before(h, op) + ([OperatorToken(op)] + ([LeftParen] + (Print(r) + [RightParen])))
    ensures var toks := Before(h, op) + ([OperatorToken(op)] + Print(r)); var result := ParseExpression(known, toks, 0);
      && (StartsWithNot(r) && Pops(op, Not) ==> result.Throw?)
      && (!(StartsWithNot(r) && Pops(op, Not)) ==>
           result == Done((Some(Under(h, op, r)), |toks|)) && Under(h, op, r) != Operation(h, op, r))
  {
    hide *;
    PrintParenthesized(h, op, r, known);
    if StartsWithNot(r) && Pops(op, Not) {
      NotIsRejected(h, op, r, known);
    } else {
      RightRegroups(h, op, r, known);
    }
  }

  lemma ParenthesizedTail(op: Op, r: Expr)
    requires RightNeedsParens(op, r)
    ensures TailTokens(op, r) == [OperatorToken(op)] + ([LeftParen] + (Print(r) + [RightParen]))
  {
    hide Print, OperatorToken;
  }

  lemma NotItself(h: Option<Expr>, op: Op, r: Expr)
    requires RightNeedsParens(op, r) && !(StartsWithNot(r) && Pops(op, Not))
    ensures Under(h, op, r) != Operation(h, op, r)
  {
    assert r.Binary?;
    SmallerLeft(r);
  }
}
