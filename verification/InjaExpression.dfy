/**
 Parser::parse_expression (inja.hpp): a shunting-yard parser with an argument stack and an operator
 stack, here as functions from a token position to a result and the position where it stopped.
 */
module InjaExpression {
  import opened Sequences
  import opened InjaSyntax

  datatype Error =
    | TooFewArguments | Malformed | RightParenExpected | EmptyParentheses
    | UnknownFunction | FunctionNameExpected | PipeWithoutArgument | UnexpectedColon
    // errors of statements
    | StatementExpected | CloseExpected | UnexpectedToken | CommentCloseExpected
    | ElseWithoutIf | EndIfWithoutIf | EndForWithoutFor | IdExpected | InExpected
    | UnmatchedIf | UnmatchedFor | EqualsExpected | NotModelled

  datatype Outcome<+T> = Done(value: T) | Throw(error: Error) {
    predicate IsFailure() {
      Throw?
    }

    function PropagateFailure<U>(): Outcome<U>
      requires Throw?
    {
      Throw(error)
    }

    function Extract(): T
      requires Done?
    {
      value
    }
  }

  /** Beyond the last token the lexer keeps returning Eof. */
  function TokenAt(toks: seq<Token>, i: nat): Token {
    if i < |toks| then toks[i] else Eof
  }

  // ---- The two stacks ----

  datatype Stacks = Stacks(args: seq<Expr>, ops: seq<Op>)

  /** add_operator: the top operator takes its arguments from the top of the argument stack. */
  function AddOperator(s: Stacks): (r: Outcome<Stacks>)
    requires s.ops != []
    ensures r.Done? ==> |r.value.ops| < |s.ops|
  {
    var n, m := |s.args|, |s.ops| - 1;
    if n < Arity(s.ops[m]) then Throw(TooFewArguments)
    else if s.ops[m] == Not then Done(Stacks(s.args[..n - 1] + [Prefix(s.args[n - 1])], s.ops[..m]))
    else Done(Stacks(s.args[..n - 2] + [Binary(s.ops[m], s.args[n - 2], s.args[n - 1])], s.ops[..m]))
  }

  /** The loop that makes room for `next`. */
  function Reduce(s: Stacks, next: Op): Outcome<Stacks>
    decreases |s.ops|
  {
    if s.ops == [] || !Pops(s.ops[|s.ops| - 1], next) then Done(s)
    else
      var t :- AddOperator(s);
      Reduce(t, next)
  }

  /** The loop that applies all remaining operators. */
  function ReduceAll(s: Stacks): Outcome<Stacks>
    decreases |s.ops|
  {
    if s.ops == [] then Done(s)
    else
      var t :- AddOperator(s);
      ReduceAll(t)
  }

  /** The result of the loop: no expression for an empty argument stack. */
  function Finish(s: Stacks, i: nat): Outcome<(Option<Expr>, nat)> {
    var t :- ReduceAll(s);
    if |t.args| == 1 then Done((Some(t.args[0]), i))
    else if |t.args| > 1 then Throw(Malformed)
    else Done((None, i))
  }

  // ---- The main loop ----

  function Loop(known: Functions, toks: seq<Token>, i: nat, s: Stacks): (r: Outcome<(Option<Expr>, nat)>)
    requires i <= |toks|
    ensures r.Done? ==> i <= r.value.1 <= |toks|
    decreases |toks| - i, 0
  {
    var t := TokenAt(toks, i);
    if IsLiteralToken(t) then Loop(known, toks, i + 1, s.(args := s.args + [Literal(t)]))
    else if TokenOperator(t).Some? then
      var op := TokenOperator(t).value;
      var u :- Reduce(s, op);
      Loop(known, toks, i + 1, u.(ops := u.ops + [op]))
    else if t.Id? && TokenAt(toks, i + 1) == LeftParen then
      var (args, j) :- Arguments(known, toks, i + 2, []);
      if TokenAt(toks, j) != RightParen then Throw(RightParenExpected)
      else if !known(t.name, |args|) then Throw(UnknownFunction)
      else Loop(known, toks, j + 1, s.(args := s.args + [Call(t.name, args)]))
    else if t.Id? then Loop(known, toks, i + 1, s.(args := s.args + [Data(t.name)]))
    else if t.Colon? then Throw(UnexpectedColon)
    else if t.LeftParen? then
      var (e, j) :- Loop(known, toks, i + 1, Stacks([], []));
      if TokenAt(toks, j) != RightParen then Throw(RightParenExpected)
      else if e.None? then Throw(EmptyParentheses)
      else Loop(known, toks, j + 1, s.(args := s.args + [e.value]))
    else if t.Pipe? then
      var f := TokenAt(toks, i + 1);
      if !f.Id? then Throw(FunctionNameExpected)
      else if s.args == [] then Throw(PipeWithoutArgument)
      else
        var first := s.args[|s.args| - 1];
        var below := s.args[..|s.args| - 1];
        if TokenAt(toks, i + 2) == LeftParen then
          var (args, j) :- Arguments(known, toks, i + 3, [first]);
          if TokenAt(toks, j) != RightParen then Throw(RightParenExpected)
          else if !known(f.name, |args|) then Throw(UnknownFunction)
          else Loop(known, toks, j + 1, s.(args := below + [Call(f.name, args)]))
        else if !known(f.name, 1) then Throw(UnknownFunction)
        else Loop(known, toks, i + 2, s.(args := below + [Call(f.name, [first])]))
    else Finish(s, i)
  }

  /** The arguments of a call, from the token after a parenthesis or a comma; `acc` are those before. */
  function Arguments(known: Functions, toks: seq<Token>, i: nat, acc: seq<Expr>): (r: Outcome<(seq<Expr>, nat)>)
    requires i <= |toks|
    ensures r.Done? ==> i <= r.value.1 <= |toks|
    decreases |toks| - i, 1
  {
    var (e, j) :- Loop(known, toks, i, Stacks([], []));
    if e.None? then Done((acc, j))
    else if TokenAt(toks, j) == Comma then Arguments(known, toks, j + 1, acc + [e.value])
    else Done((acc + [e.value], j))
  }

  function ParseExpression(known: Functions, toks: seq<Token>, i: nat): Outcome<(Option<Expr>, nat)>
    requires i <= |toks|
  {
    Loop(known, toks, i, Stacks([], []))
  }

  // ---- Printing with the parentheses that the stacks need ----

  function Root(e: Expr): Option<Op> {
    match e
    case Prefix(_) => Some(Not)
    case Binary(op, _, _) => Some(op)
    case _ => None
  }

  /** The operator of the left operand would still wait on the stack when `op` is pushed. */
  predicate LeftNeedsParens(op: Op, left: Expr) {
    Root(left).Some? && !Pops(Root(left).value, op)
  }

  /** The operator of the right operand would apply `op` too early. */
  predicate RightNeedsParens(op: Op, right: Expr) {
    Root(right).Some? && Pops(op, Root(right).value)
  }

  function Parenthesized(toks: seq<Token>, parens: bool): seq<Token> {
    if parens then [LeftParen] + (toks + [RightParen]) else toks
  }

  function Print(e: Expr): seq<Token> {
    match e
    case Literal(t) => [t]
    case Data(name) => [Id(name)]
    case Prefix(a) => [OperatorToken(Not)] + Parenthesized(Print(a), RightNeedsParens(Not, a))
    case Binary(op, l, r) =>
      Parenthesized(Print(l), LeftNeedsParens(op, l))
      + ([OperatorToken(op)] + Parenthesized(Print(r), RightNeedsParens(op, r)))
    case Call(name, args) => [Id(name), LeftParen] + (PrintArgs(args) + [RightParen])
  }

  function PrintArgs(args: seq<Expr>): seq<Token> {
    if args == [] then []
    else if |args| == 1 then Print(args[0])
    else Print(args[0]) + ([Comma] + PrintArgs(args[1..]))
  }
}
