/** How the expression parser groups operators and pipes. */
module InjaOperatorOrder {
  import opened Sequences
  import opened InjaSyntax
  import opened InjaExpression
  import opened InjaExpressionProof

  /** An operand without an operator of its own. */
  predicate Atom(e: Expr) {
    Root(e).None?
  }

  /** a p b q c */
  function Chain(a: Expr, p: Op, b: Expr, q: Op, c: Expr): seq<Token> {
    (Print(a) + ([OperatorToken(p)] + Print(b))) + ([OperatorToken(q)] + Print(c))
  }

  /**
   The grouping of any two binary operators: to the left if the first one binds more strongly, or if they
   bind equally and the second is not a power; otherwise to the right.
   */
  lemma ChainNests(a: Expr, p: Op, b: Expr, q: Op, c: Expr, known: Functions)
    requires Atom(a) && Atom(b) && Atom(c) && p != Not && q != Not
    requires WellFormed(a, known) && WellFormed(b, known) && WellFormed(c, known)
    ensures var left := Precedence(p) > Precedence(q) || (Precedence(p) == Precedence(q) && q != Power);
      ParseExpression(known, Chain(a, p, b, q, c), 0)
      == Done((Some(if left then Binary(q, Binary(p, a, b), c) else Binary(p, a, Binary(q, b, c))),
               |Chain(a, p, b, q, c)|))
  {
    if Pops(p, q) {
      LeftChain(a, p, b, q, c);
      WellFormedChain(a, p, b, q, c, known);
      hide WellFormed, Print, Loop, Chain;
      ExpressionRoundTrip(Binary(q, Binary(p, a, b), c), known);
    } else {
      RightChain(a, p, b, q, c);
      WellFormedChain(a, p, b, q, c, known);
      hide WellFormed, Print, Loop, Chain;
      ExpressionRoundTrip(Binary(p, a, Binary(q, b, c)), known);
    }
  }

  lemma WellFormedChain(a: Expr, p: Op, b: Expr, q: Op, c: Expr, known: Functions)
    requires p != Not && q != Not && WellFormed(a, known) && WellFormed(b, known) && WellFormed(c, known)
    ensures WellFormed(Binary(q, Binary(p, a, b), c), known) && WellFormed(Binary(p, a, Binary(q, b, c)), known)
  {
  }

  lemma LeftChain(a: Expr, p: Op, b: Expr, q: Op, c: Expr)
    requires Atom(a) && Atom(b) && Atom(c) && Pops(p, q)
    ensures Print(Binary(q, Binary(p, a, b), c)) == Chain(a, p, b, q, c)
  {
    hide Pops, OperatorToken;
  }

  lemma RightChain(a: Expr, p: Op, b: Expr, q: Op, c: Expr)
    requires Atom(a) && Atom(b) && Atom(c) && !Pops(p, q)
    ensures Print(Binary(p, a, Binary(q, b, c))) == Chain(a, p, b, q, c)
  {
    hide Pops, OperatorToken;
    var x, y := Print(a), [OperatorToken(q)] + Print(c);
    assert (x + ([OperatorToken(p)] + Print(b))) + y == x + ([OperatorToken(p)] + (Print(b) + y));
  }

  // ---- Pipes ----

  /** The call that a pipe makes of the last operand of `e`. */
  function Piped(e: Expr, f: string, args: seq<Expr>): Expr
    decreases e
  {
    if Root(e).None? then Call(f, [e] + args)
    else
      var a := LastOperand(e);
      var piped := if RightNeedsParens(Root(e).value, a) then Call(f, [a] + args) else Piped(a, f, args);
      if e.Prefix? then Prefix(piped) else Binary(e.op, e.left, piped)
  }

  lemma {:induction false} PipedWellFormed(e: Expr, f: string, args: seq<Expr>, known: Functions)
    requires WellFormed(e, known) && PlainName(f) && known(f, 1 + |args|)
    requires forall k :: 0 <= k < |args| ==> WellFormed(args[k], known)
    ensures WellFormed(Piped(e, f, args), known) && (Root(e).Some? ==> Root(Piped(e, f, args)) == Root(e))
    decreases e
  {
    hide PlainName, RightNeedsParens;
    if Root(e).None? {
      assert forall k :: 0 < k < 1 + |args| ==> ([e] + args)[k] == args[k - 1];
    } else {
      var a := LastOperand(e);
      assert forall k :: 0 < k < 1 + |args| ==> ([a] + args)[k] == args[k - 1];
      if !RightNeedsParens(Root(e).value, a) {
        PipedWellFormed(a, f, args, known);
      }
    }
  }

  /** The pipe changes only the last argument on the stack. */
  lemma {:induction false} PipedSpine(e: Expr, f: string, args: seq<Expr>, known: Functions, s: Stacks)
    requires WellFormed(e, known) && PlainName(f) && known(f, 1 + |args|)
    requires forall k :: 0 <= k < |args| ==> WellFormed(args[k], known)
    ensures var t, u := Push(s, Spine(e)), Push(s, Spine(Piped(e, f, args)));
      && t.args != [] && u.ops == t.ops
      && u.args == t.args[..|t.args| - 1] + [Call(f, [t.args[|t.args| - 1]] + args)]
    decreases e
  {
    hide PlainName, Pops, Spine, WellFormed;
    if Root(e).None? {
      SpineAtom(s, e);
      SpineAtom(s, Piped(e, f, args));
    } else {
      OperandWellFormed(e, known);
      var a, r := LastOperand(e), Piped(e, f, args);
      SpineUnfold(s, e);
      SpineUnfold(s, r);
      assert Root(r) == Root(e) && Below(s, r) == Below(s, e);
      if RightNeedsParens(Root(e).value, a) {
        SpineAtom(Below(s, e), LastOperand(r));
      } else {
        PipedWellFormed(a, f, args, known);
        PipedSpine(a, f, args, known, Below(s, e));
      }
    }
  }

  lemma OperandWellFormed(e: Expr, known: Functions)
    requires Root(e).Some? && WellFormed(e, known)
    ensures WellFormed(LastOperand(e), known)
  {
  }

  function PipeTail(f: string, args: seq<Expr>): seq<Token> {
    [Pipe] + ([Id(f)] + ([LeftParen] + (PrintArgs(args) + [RightParen])))
  }

  /** A pipe binds more strongly than every operator: it takes the last operand only. */
  lemma PipeTakesLastOperand(e: Expr, f: string, args: seq<Expr>, known: Functions)
    requires WellFormed(e, known) && PlainName(f) && known(f, 1 + |args|)
    requires forall k :: 0 <= k < |args| ==> WellFormed(args[k], known)
    ensures var toks := Print(e) + PipeTail(f, args);
      ParseExpression(known, toks, 0) == Done((Some(Piped(e, f, args)), |toks|))
  {
    hide *;
    var toks := Print(e) + PipeTail(f, args);
    PipeTokens(toks, Print(e), f, args);
    var i := |Print(e)|;
    var s := Stacks([], []);
    NothingWaits(s, e);
    Reads(e, known, toks, 0, s);
    ReadsArgs(args, known, toks, i + 3, [LastArgument(Push(s, Spine(e)))]);
    PipedSpine(e, f, args, known, s);
    LoopPipe(known, toks, i, Push(s, Spine(e)), f, args, i + 3 + |PrintArgs(args)|, Push(s, Spine(Piped(e, f, args))));
    LoopStop(known, toks, |toks|, Push(s, Spine(Piped(e, f, args))));
    PipedWellFormed(e, f, args, known);
    FinishOne(Piped(e, f, args), known, |toks|);
    StartExpression(known, toks);
  }

  function LastArgument(s: Stacks): Expr {
    if s.args == [] then Data("") else s.args[|s.args| - 1]
  }

  lemma StartExpression(known: Functions, toks: seq<Token>)
    ensures ParseExpression(known, toks, 0) == Loop(known, toks, 0, Stacks([], []))
  {
  }

  lemma NothingWaits(s: Stacks, e: Expr)
    requires s.ops == []
    ensures Waits(s, e)
  {
  }

  lemma PipeTokens(toks: seq<Token>, ts: seq<Token>, f: string, args: seq<Expr>)
    requires toks == ts + PipeTail(f, args)
    ensures At(toks, 0, ts) && At(toks, |ts| + 3, PrintArgs(args))
    ensures var i := |ts|; var j := i + 3 + |PrintArgs(args)|;
      && i + 2 < |toks| && TokenAt(toks, i) == Pipe
      && TokenAt(toks, i + 1) == Id(f) && TokenAt(toks, i + 2) == LeftParen
      && TokenAt(toks, j) == RightParen && j + 1 == |toks| && Stops(TokenAt(toks, |toks|))
  {
    hide *;
    AtWhole(toks);
    AtSplit(toks, 0, ts, PipeTail(f, args));
    PipeTailTokens(toks, |ts|, f, args);
    EndStops(toks);
  }

  lemma PipeTailTokens(toks: seq<Token>, i: nat, f: string, args: seq<Expr>)
    requires At(toks, i, PipeTail(f, args)) && i + |PipeTail(f, args)| == |toks|
    ensures At(toks, i + 3, PrintArgs(args))
    ensures var j := i + 3 + |PrintArgs(args)|;
      && i + 2 < |toks| && TokenAt(toks, i) == Pipe
      && TokenAt(toks, i + 1) == Id(f) && TokenAt(toks, i + 2) == LeftParen
      && TokenAt(toks, j) == RightParen && j + 1 == |toks|
  {
    hide At, Print, PrintArgs, TokenAt;
    var inner := PrintArgs(args);
    TokenThen(toks, i, Pipe, [Id(f)] + ([LeftParen] + (inner + [RightParen])));
    TokenThen(toks, i + 1, Id(f), [LeftParen] + (inner + [RightParen]));
    TokenThen(toks, i + 2, LeftParen, inner + [RightParen]);
    AtSplit(toks, i + 3, inner, [RightParen]);
    AtOne(toks, i + 3 + |inner|, RightParen);
  }

  lemma EndStops(toks: seq<Token>)
    ensures Stops(TokenAt(toks, |toks|))
  {
  }

  lemma LoopPipe(known: Functions, toks: seq<Token>, i: nat, s: Stacks, f: string, args: seq<Expr>, j: nat, u: Stacks)
    requires i + 2 < |toks| && TokenAt(toks, i) == Pipe
    requires TokenAt(toks, i + 1) == Id(f) && TokenAt(toks, i + 2) == LeftParen
    requires s.args != [] && Arguments(known, toks, i + 3, [LastArgument(s)]) == Done(([LastArgument(s)] + args, j))
    requires TokenAt(toks, j) == RightParen && known(f, 1 + |args|)
    requires u.ops == s.ops && u.args == s.args[..|s.args| - 1] + [Call(f, [s.args[|s.args| - 1]] + args)]
    ensures j < |toks| && Loop(known, toks, i, s) == Loop(known, toks, j + 1, u)
  {
    assert u == s.(args := u.args);
  }
}
