/** Printing an expression and parsing it again gives the same expression. */
module InjaExpressionProof {
  import opened Sequences
  import opened InjaSyntax
  import opened InjaExpression

  /** A token, and what stands after it. */
  lemma TokenThen(toks: seq<Token>, i: nat, t: Token, ts: seq<Token>)
    requires At(toks, i, [t] + ts)
    ensures i < |toks| && TokenAt(toks, i) == t && At(toks, i + 1, ts) && i + 1 + |ts| <= |toks|
  {
    AtCons(toks, i, t, ts);
  }

  lemma AtOne(toks: seq<Token>, i: nat, t: Token)
    requires At(toks, i, [t])
    ensures i < |toks| && TokenAt(toks, i) == t
  {
    AtElement(toks, i, [t], 0);
  }

  // ---- What an expression leaves on the stacks ----

  /** The last operand of an operation. */
  function LastOperand(e: Expr): Expr
    requires Root(e).Some?
  {
    if e.Prefix? then e.arg else e.right
  }

  /** What an operation puts on the stacks before its last operand. */
  function Head(e: Expr): Stacks
    requires Root(e).Some?
  {
    Stacks(if e.Prefix? then [] else [e.left], [Root(e).value])
  }

  function Push(s: Stacks, t: Stacks): Stacks {
    Stacks(s.args + t.args, s.ops + t.ops)
  }

  /** What `e` has put on the stacks when its tokens are read, before its waiting operators are applied. */
  function Spine(e: Expr): Stacks
    decreases e
  {
    if Root(e).None? then Stacks([e], [])
    else
      var a := LastOperand(e);
      Push(Head(e), if RightNeedsParens(Root(e).value, a) then Stacks([a], []) else Spine(a))
  }

  function PushArg(s: Stacks, e: Expr): Stacks {
    Push(s, Stacks([e], []))
  }

  /** The operators that wait for `e` are applied by every operator that its root gives way to. */
  predicate GivesWay(e: Expr, next: Op) {
    Root(e).Some? ==> Pops(Root(e).value, next)
  }

  /** The operator on top of the stack waits for `e`. */
  predicate Waits(s: Stacks, e: Expr) {
    s.ops != [] && Root(e).Some? ==> !Pops(s.ops[|s.ops| - 1], Root(e).value)
  }

  lemma PushAssociative(s: Stacks, t: Stacks, u: Stacks)
    ensures Push(s, Push(t, u)) == Push(Push(s, t), u)
  {
    assert s.args + (t.args + u.args) == s.args + t.args + u.args;
    assert s.ops + (t.ops + u.ops) == s.ops + t.ops + u.ops;
  }

  /** The stacks while the last operand of `e` is read. */
  function Below(s: Stacks, e: Expr): Stacks
    requires Root(e).Some?
  {
    Push(s, Head(e))
  }

  lemma SpineUnfold(s: Stacks, e: Expr)
    requires Root(e).Some?
    ensures var t := Below(s, e); var a := LastOperand(e);
      Push(s, Spine(e)) == if RightNeedsParens(Root(e).value, a) then PushArg(t, a) else Push(t, Spine(a))
  {
    hide Push, Head, RightNeedsParens;
    var a := LastOperand(e);
    PushAssociative(s, Head(e), if RightNeedsParens(Root(e).value, a) then Stacks([a], []) else Spine(a));
  }

  lemma SpineAtom(s: Stacks, e: Expr)
    requires Root(e).None?
    ensures Push(s, Spine(e)) == PushArg(s, e)
  {
  }

  predicate BinaryOk(e: Expr) {
    e.Binary? ==> e.op != Not
  }

  /** Once its last operand is complete, applying the root gives the operation. */
  lemma AddRoot(s: Stacks, e: Expr)
    requires Root(e).Some? && BinaryOk(e)
    ensures var t := PushArg(Below(s, e), LastOperand(e));
      && t.ops != [] && t.ops[|t.ops| - 1] == Root(e).value
      && AddOperator(t) == Done(PushArg(s, e))
  {
    var t := PushArg(Below(s, e), LastOperand(e));
    assert t.ops == s.ops + [Root(e).value];
    assert t.ops[..|t.ops| - 1] == s.ops + [];
    if e.Prefix? {
      assert t.args == s.args + [e.arg];
      assert t.args[..|t.args| - 1] == s.args;
    } else {
      assert t.args == s.args + [e.left, e.right];
      assert t.args[..|t.args| - 2] == s.args;
    }
  }

  lemma GivesWayInside(e: Expr, next: Op)
    requires Root(e).Some? && GivesWay(e, next) && !RightNeedsParens(Root(e).value, LastOperand(e))
    ensures GivesWay(LastOperand(e), next)
  {
    hide Precedence;
  }

  /** Applying the operators that wait for `e` rebuilds `e`. */
  lemma {:induction false} ReduceSpine(e: Expr, known: Functions, s: Stacks, next: Op)
    requires WellFormed(e, known) && GivesWay(e, next)
    ensures Reduce(Push(s, Spine(e)), next) == Reduce(PushArg(s, e), next)
    decreases e
  {
    hide Spine, Push, Pops, RightNeedsParens, AddOperator;
    if Root(e).None? {
      SpineAtom(s, e);
    } else {
      SpineUnfold(s, e);
      if !RightNeedsParens(Root(e).value, LastOperand(e)) {
        GivesWayInside(e, next);
        ReduceSpine(LastOperand(e), known, Below(s, e), next);
      }
      AddRoot(s, e);
    }
  }

  lemma {:induction false} ReduceAllSpine(e: Expr, known: Functions, s: Stacks)
    requires WellFormed(e, known)
    ensures ReduceAll(Push(s, Spine(e))) == ReduceAll(PushArg(s, e))
    decreases e
  {
    hide Spine, Push, Pops, RightNeedsParens, AddOperator;
    if Root(e).None? {
      SpineAtom(s, e);
    } else {
      SpineUnfold(s, e);
      if !RightNeedsParens(Root(e).value, LastOperand(e)) {
        ReduceAllSpine(LastOperand(e), known, Below(s, e));
      }
      AddRoot(s, e);
    }
  }

  // ---- Reading a printed expression ----

  /** A token at which the loop ends without reading it. */
  predicate Stops(t: Token) {
    !t.Id? && !IsLiteralToken(t) && TokenOperator(t).None? && !t.Colon? && !t.LeftParen? && !t.Pipe?
  }

  lemma FinishOne(e: Expr, known: Functions, i: nat)
    requires WellFormed(e, known)
    ensures Finish(Push(Stacks([], []), Spine(e)), i) == Done((Some(e), i))
  {
    ReduceAllSpine(e, known, Stacks([], []));
    assert PushArg(Stacks([], []), e) == Stacks([e], []);
  }

  lemma LoopStop(known: Functions, toks: seq<Token>, i: nat, s: Stacks)
    requires i <= |toks| && Stops(TokenAt(toks, i))
    ensures Loop(known, toks, i, s) == Finish(s, i)
  {
    hide Finish;
  }

  lemma LoopLiteral(known: Functions, toks: seq<Token>, i: nat, s: Stacks, t: Token)
    requires i < |toks| && TokenAt(toks, i) == t && IsLiteralToken(t)
    ensures Loop(known, toks, i, s) == Loop(known, toks, i + 1, PushArg(s, Literal(t)))
  {
    hide IsLiteralToken;
    assert s.ops + [] == s.ops;
  }

  lemma LoopData(known: Functions, toks: seq<Token>, i: nat, s: Stacks, name: string)
    requires i < |toks| && TokenAt(toks, i) == Id(name) && PlainName(name)
    requires TokenAt(toks, i + 1) != LeftParen
    ensures Loop(known, toks, i, s) == Loop(known, toks, i + 1, PushArg(s, Data(name)))
  {
    hide LiteralWord, WordOperator;
    assert s.ops + [] == s.ops;
  }

  lemma OperatorIsNoLiteral(op: Op)
    ensures !IsLiteralToken(OperatorToken(op)) && OperatorToken(op) != LeftParen
    ensures TokenOperator(OperatorToken(op)) == Some(op)
  {
  }

  lemma LoopOperator(known: Functions, toks: seq<Token>, i: nat, s: Stacks, op: Op, u: Stacks)
    requires i < |toks| && TokenAt(toks, i) == OperatorToken(op) && Reduce(s, op) == Done(u)
    ensures Loop(known, toks, i, s) == Loop(known, toks, i + 1, Push(u, Stacks([], [op])))
  {
    OperatorIsNoLiteral(op);
    hide IsLiteralToken, TokenOperator, OperatorToken, Reduce;
    assert u.args + [] == u.args;
  }

  lemma LoopParens(known: Functions, toks: seq<Token>, i: nat, s: Stacks, e: Expr, j: nat)
    requires i < |toks| && TokenAt(toks, i) == LeftParen
    requires Loop(known, toks, i + 1, Stacks([], [])) == Done((Some(e), j)) && TokenAt(toks, j) == RightParen
    ensures j < |toks| && Loop(known, toks, i, s) == Loop(known, toks, j + 1, PushArg(s, e))
  {
    assert s.ops + [] == s.ops;
  }

  lemma LoopCall(known: Functions, toks: seq<Token>, i: nat, s: Stacks, name: string, args: seq<Expr>, j: nat)
    requires i + 1 < |toks| && TokenAt(toks, i) == Id(name) && TokenAt(toks, i + 1) == LeftParen
    requires PlainName(name) && known(name, |args|)
    requires Arguments(known, toks, i + 2, []) == Done((args, j)) && TokenAt(toks, j) == RightParen
    ensures j < |toks| && Loop(known, toks, i, s) == Loop(known, toks, j + 1, PushArg(s, Call(name, args)))
  {
    hide LiteralWord, WordOperator;
    assert s.ops + [] == s.ops;
  }

  // The operator below an operation also waits for its left operand.
  lemma WaitsLeft(s: Stacks, e: Expr)
    requires e.Binary? && Waits(s, e) && !LeftNeedsParens(e.op, e.left)
    ensures Waits(s, e.left)
  {
    hide Precedence;
  }

  lemma WaitsBelow(s: Stacks, e: Expr)
    requires Root(e).Some? && !RightNeedsParens(Root(e).value, LastOperand(e))
    ensures Waits(Below(s, e), LastOperand(e))
  {
    hide Pops;
  }

  lemma ReduceWaiting(s: Stacks, l: Expr, op: Op)
    requires s.ops != [] ==> !Pops(s.ops[|s.ops| - 1], op)
    ensures Reduce(s, op) == Done(s)
    ensures Reduce(PushArg(s, l), op) == Done(PushArg(s, l))
  {
    hide Pops, AddOperator;
    assert s.ops + [] == s.ops;
  }

  /** What an operand puts on the stacks. */
  function OperandStacks(e: Expr, parens: bool): Stacks {
    if parens then Stacks([e], []) else Spine(e)
  }

  /**
   Reading a printed expression, on stacks whose top operator waits for it, only adds its spine.
   The token after it must not turn a variable into a call.
   */
  lemma {:induction false} Reads(e: Expr, known: Functions, toks: seq<Token>, i: nat, s: Stacks)
    requires WellFormed(e, known) && At(toks, i, Print(e)) && Waits(s, e)
    requires TokenAt(toks, i + |Print(e)|) != LeftParen
    ensures i + |Print(e)| <= |toks|
    ensures Loop(known, toks, i, s) == Loop(known, toks, i + |Print(e)|, Push(s, Spine(e)))
    decreases e, 1
  {
    match e
    case Literal(t) =>
      AtOne(toks, i, t);
      LoopLiteral(known, toks, i, s, t);
      SpineAtom(s, e);
    case Data(name) =>
      AtOne(toks, i, Id(name));
      LoopData(known, toks, i, s, name);
      SpineAtom(s, e);
    case Prefix(a) => ReadsPrefix(e, known, toks, i, s);
    case Binary(_, _, _) => ReadsBinary(e, known, toks, i, s);
    case Call(_, _) => ReadsCall(e, known, toks, i, s);
  }

  lemma {:induction false} ReadsPrefix(e: Expr, known: Functions, toks: seq<Token>, i: nat, s: Stacks)
    requires e.Prefix? && WellFormed(e, known) && At(toks, i, Print(e)) && Waits(s, e)
    requires TokenAt(toks, i + |Print(e)|) != LeftParen
    ensures i + |Print(e)| <= |toks|
    ensures Loop(known, toks, i, s) == Loop(known, toks, i + |Print(e)|, Push(s, Spine(e)))
    decreases e, 0
  {
    hide At, Loop, Reduce, Pops, Spine, Push, RightNeedsParens, OperatorToken, Parenthesized;
    var parens := RightNeedsParens(Not, e.arg);
    var operand := Parenthesized(Print(e.arg), parens);
    TokenThen(toks, i, OperatorToken(Not), operand);
    ReduceWaiting(s, e, Not);
    LoopOperator(known, toks, i, s, Not, s);
    if !parens {
      WaitsBelow(s, e);
    }
    ReadsOperand(e.arg, known, toks, i + 1, Below(s, e), parens);
    SpineUnfold(s, e);
  }

  lemma {:induction false} ReadsBinary(e: Expr, known: Functions, toks: seq<Token>, i: nat, s: Stacks)
    requires e.Binary? && WellFormed(e, known) && At(toks, i, Print(e)) && Waits(s, e)
    requires TokenAt(toks, i + |Print(e)|) != LeftParen
    ensures i + |Print(e)| <= |toks|
    ensures Loop(known, toks, i, s) == Loop(known, toks, i + |Print(e)|, Push(s, Spine(e)))
    decreases e, 0
  {
    hide At, Loop, Reduce, Pops, Spine, Push, LeftNeedsParens, RightNeedsParens, OperatorToken, Parenthesized;
    var op := e.op;
    var lp, rp := LeftNeedsParens(op, e.left), RightNeedsParens(op, e.right);
    var left, right := Parenthesized(Print(e.left), lp), Parenthesized(Print(e.right), rp);
    AtSplit(toks, i, left, [OperatorToken(op)] + right);
    var k := i + |left|;
    TokenThen(toks, k, OperatorToken(op), right);
    OperatorIsNoLiteral(op);
    if !lp {
      WaitsLeft(s, e);
    }
    ReadsOperand(e.left, known, toks, i, s, lp);
    ReduceWaiting(s, e.left, op);
    ReduceLeft(e.left, known, s, op, lp);
    LoopOperator(known, toks, k, Push(s, OperandStacks(e.left, lp)), op, PushArg(s, e.left));
    BelowBinary(s, e);
    if !rp {
      WaitsBelow(s, e);
    }
    ReadsOperand(e.right, known, toks, k + 1, Below(s, e), rp);
    SpineUnfold(s, e);
  }

  lemma BelowBinary(s: Stacks, e: Expr)
    requires e.Binary?
    ensures Push(PushArg(s, e.left), Stacks([], [e.op])) == Below(s, e)
  {
    assert s.ops + [] + [e.op] == s.ops + [e.op];
  }

  lemma ReduceLeft(l: Expr, known: Functions, s: Stacks, op: Op, parens: bool)
    requires WellFormed(l, known) && parens == LeftNeedsParens(op, l)
    requires s.ops != [] ==> !Pops(s.ops[|s.ops| - 1], op)
    ensures Reduce(Push(s, OperandStacks(l, parens)), op) == Done(PushArg(s, l))
  {
    hide Reduce, Spine, Push, Pops;
    ReduceWaiting(s, l, op);
    if !parens {
      ReduceSpine(l, known, s, op);
    }
  }

  lemma {:induction false} ReadsOperand(e: Expr, known: Functions, toks: seq<Token>, i: nat, s: Stacks, parens: bool)
    requires WellFormed(e, known) && At(toks, i, Parenthesized(Print(e), parens))
    requires !parens ==> Waits(s, e)
    requires TokenAt(toks, i + |Parenthesized(Print(e), parens)|) != LeftParen
    ensures var j := i + |Parenthesized(Print(e), parens)|;
      j <= |toks| && Loop(known, toks, i, s) == Loop(known, toks, j, Push(s, OperandStacks(e, parens)))
    decreases e, 3
  {
    hide At, Loop, Spine, Push, Print, WellFormed, Waits, TokenAt;
    if parens {
      TokenThen(toks, i, LeftParen, Print(e) + [RightParen]);
      AtSplit(toks, i + 1, Print(e), [RightParen]);
      var j := i + 1 + |Print(e)|;
      AtOne(toks, j, RightParen);
      assert Stops(RightParen);
      ReadsClosed(e, known, toks, i + 1);
      LoopParens(known, toks, i, s, e, j);
    } else {
      Reads(e, known, toks, i, s);
    }
  }

  /** A printed expression, followed by a token that ends the loop, is parsed as itself. */
  lemma {:induction false} ReadsClosed(e: Expr, known: Functions, toks: seq<Token>, i: nat)
    requires WellFormed(e, known) && At(toks, i, Print(e))
    requires Stops(TokenAt(toks, i + |Print(e)|))
    ensures i + |Print(e)| <= |toks|
    ensures Loop(known, toks, i, Stacks([], [])) == Done((Some(e), i + |Print(e)|))
    decreases e, 2
  {
    hide At, Loop, Finish, Spine, Push;
    var s := Stacks([], []);
    Reads(e, known, toks, i, s);
    LoopStop(known, toks, i + |Print(e)|, Push(s, Spine(e)));
    FinishOne(e, known, i + |Print(e)|);
  }

  lemma {:induction false} ReadsCall(e: Expr, known: Functions, toks: seq<Token>, i: nat, s: Stacks)
    requires e.Call? && WellFormed(e, known) && At(toks, i, Print(e))
    ensures i + |Print(e)| <= |toks|
    ensures Loop(known, toks, i, s) == Loop(known, toks, i + |Print(e)|, Push(s, Spine(e)))
    decreases e, 0
  {
    hide At, Loop, Arguments, PlainName;
    var inner := PrintArgs(e.args);
    assert Print(e) == [Id(e.name)] + ([LeftParen] + (inner + [RightParen]));
    TokenThen(toks, i, Id(e.name), [LeftParen] + (inner + [RightParen]));
    TokenThen(toks, i + 1, LeftParen, inner + [RightParen]);
    AtSplit(toks, i + 2, inner, [RightParen]);
    AtOne(toks, i + 2 + |inner|, RightParen);
    ReadsArgs(e.args, known, toks, i + 2, []);
    assert [] + e.args == e.args;
    LoopCall(known, toks, i, s, e.name, e.args, i + 2 + |inner|);
    SpineAtom(s, e);
  }

  lemma {:induction false} ReadsArgs(args: seq<Expr>, known: Functions, toks: seq<Token>, i: nat, acc: seq<Expr>)
    requires forall k :: 0 <= k < |args| ==> WellFormed(args[k], known)
    requires At(toks, i, PrintArgs(args)) && TokenAt(toks, i + |PrintArgs(args)|) == RightParen
    ensures i + |PrintArgs(args)| <= |toks|
    ensures Arguments(known, toks, i, acc) == Done((acc + args, i + |PrintArgs(args)|))
    decreases args, 4
  {
    AtBound(toks, i, PrintArgs(args));
    hide At, Loop, Arguments, Print, WellFormed;
    if args == [] {
      ArgumentsNone(known, toks, i, acc);
      assert acc + args == acc;
    } else if |args| == 1 {
      ReadsClosed(args[0], known, toks, i);
      ArgumentsLast(known, toks, i, acc, args[0], i + |Print(args[0])|);
      assert args == [args[0]];
    } else {
      ReadsMoreArgs(args, args[0], args[1..], known, toks, i, acc);
    }
  }

  lemma {:induction false} ReadsMoreArgs(
      args: seq<Expr>, first: Expr, rest: seq<Expr>, known: Functions, toks: seq<Token>, i: nat, acc: seq<Expr>)
    requires |args| > 1 && first == args[0] && rest == args[1..]
    requires WellFormed(first, known) && forall k :: 0 <= k < |rest| ==> WellFormed(rest[k], known)
    requires At(toks, i, Print(first) + ([Comma] + PrintArgs(rest)))
    requires TokenAt(toks, i + |Print(first)| + 1 + |PrintArgs(rest)|) == RightParen
    ensures i <= |toks|
    ensures Arguments(known, toks, i, acc)
      == Done((acc + args, i + |Print(first)| + 1 + |PrintArgs(rest)|))
    decreases args, 0
  {
    hide At, Loop, Arguments, Print, PrintArgs, WellFormed;
    assert acc + [first] + rest == acc + args;
    AtSplit(toks, i, Print(first), [Comma] + PrintArgs(rest));
    var j := i + |Print(first)|;
    TokenThen(toks, j, Comma, PrintArgs(rest));
    ReadsClosed(first, known, toks, i);
    ArgumentsMore(known, toks, i, acc, first, j);
    ReadsArgs(rest, known, toks, j + 1, acc + [first]);
  }

  lemma ArgumentsNone(known: Functions, toks: seq<Token>, i: nat, acc: seq<Expr>)
    requires i <= |toks| && TokenAt(toks, i) == RightParen
    ensures Arguments(known, toks, i, acc) == Done((acc, i))
  {
    LoopStop(known, toks, i, Stacks([], []));
    hide Loop;
  }

  lemma ArgumentsLast(known: Functions, toks: seq<Token>, i: nat, acc: seq<Expr>, e: Expr, j: nat)
    requires i <= |toks| && Loop(known, toks, i, Stacks([], [])) == Done((Some(e), j)) && TokenAt(toks, j) == RightParen
    ensures Arguments(known, toks, i, acc) == Done((acc + [e], j))
  {
    hide Loop;
  }

  lemma ArgumentsMore(known: Functions, toks: seq<Token>, i: nat, acc: seq<Expr>, e: Expr, j: nat)
    requires i <= |toks| && Loop(known, toks, i, Stacks([], [])) == Done((Some(e), j)) && TokenAt(toks, j) == Comma
    ensures j < |toks| && Arguments(known, toks, i, acc) == Arguments(known, toks, j + 1, acc + [e])
  {
    hide Loop;
  }

  /** Printing a tree and parsing the tokens gives the same tree, and reads all of them. */
  lemma ExpressionRoundTrip(e: Expr, known: Functions)
    requires WellFormed(e, known)
    ensures ParseExpression(known, Print(e), 0) == Done((Some(e), |Print(e)|))
  {
    hide Print, WellFormed, Loop;
    AtWhole(Print(e));
    ReadsClosed(e, known, Print(e), 0);
  }
}
