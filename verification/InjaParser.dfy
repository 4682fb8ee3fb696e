/**
 The Parser of inja.hpp as it runs: an object that moves along the tokens, keeps two local stacks while it
 reads an expression, and threads a cursor to the current block through stacks of open statements. Each
 method is proved to do what the functions of InjaExpression and InjaStatements say.
 */
module InjaParser {
  import opened Sequences
  import opened InjaSyntax
  import opened InjaExpression
  import opened InjaStatements

  class Parser {
    const known: Functions
    const toks: seq<Token>

    /** The position of the token that has been read last. */
    var pos: nat
    var blocks: map<BlockRef, seq<Node>>
    var statements: seq<Statement>
    var currentBlock: BlockRef
    var ifStack: seq<nat>
    var forStack: seq<nat>

    constructor (known: Functions, toks: seq<Token>)
      ensures this.known == known && this.toks == toks && pos == 0 && State() == EMPTY_MEMORY
    {
      this.known, this.toks := known, toks;
      pos, blocks, statements, currentBlock, ifStack, forStack := 0, map[], [], Top, [], [];
    }

    function State(): Memory
      reads this
    {
      Memory(blocks, statements, currentBlock, ifStack, forStack)
    }

    predicate Ready()
      reads this
    {
      pos <= |toks|
    }

    /** The lexer keeps returning Eof. */
    method GetNextToken()
      modifies this`pos
      ensures old(Ready()) ==> Ready()
      ensures pos == if TokenAt(toks, old(pos)) != Eof then old(pos) + 1 else old(pos)
    {
      if TokenAt(toks, pos) != Eof {
        pos := pos + 1;
      }
    }

    // ---- Expressions ----

    /** The operator takes its arguments from the stack one by one, the last one first. */
    method ApplyOperator(args: seq<Expr>, ops: seq<Op>) returns (r: Outcome<Stacks>)
      requires ops != []
      ensures r == AddOperator(Stacks(args, ops))
    {
      var op := ops[|ops| - 1];
      if |args| < Arity(op) {
        return Throw(TooFewArguments);
      }
      var rest, taken := args, [];
      for i := 0 to Arity(op)
        invariant rest == args[..|args| - i] && taken == args[|args| - i..]
      {
        taken := [rest[|rest| - 1]] + taken;
        rest := rest[..|rest| - 1];
      }
      var node := if op == Not then Prefix(taken[0]) else Binary(op, taken[0], taken[1]);
      return Done(Stacks(rest + [node], ops[..|ops| - 1]));
    }

    /** What is left of an expression when the parser stands at `pos` with these stacks. */
    ghost function Rest(s: Stacks): Outcome<(Option<Expr>, nat)>
      requires Ready()
      reads this
    {
      Loop(known, toks, pos, s)
    }

    /** An operator is pushed once the operators that bind more strongly are applied. */
    method PushOperator(args: seq<Expr>, ops: seq<Op>, op: Op) returns (r: Outcome<Stacks>)
      ensures r == var u :- Reduce(Stacks(args, ops), op); Done(u.(ops := u.ops + [op]))
    {
      var s := Stacks(args, ops);
      while s.ops != [] && Pops(s.ops[|s.ops| - 1], op)
        invariant Reduce(s, op) == Reduce(Stacks(args, ops), op)
        decreases |s.ops|
      {
        var t := ApplyOperator(s.args, s.ops);
        if t.Throw? {
          return Throw(t.error);
        }
        s := t.value;
      }
      return Done(s.(ops := s.ops + [op]));
    }

    method ParseExpr() returns (r: Outcome<Option<Expr>>)
      requires Ready()
      modifies this`pos
      ensures Agrees(ParseExpression(known, toks, old(pos)), r, pos)
      ensures r.Done? ==> old(pos) <= pos <= |toks|
      decreases |toks| - pos, 2
    {
      hide Loop, Finish;
      var s, more := Stacks([], []), true;
      while more && pos < |toks|
        invariant Ready() && old(pos) <= pos
        invariant (if more then Rest(s) else Finish(s, pos)) == ParseExpression(known, toks, old(pos))
        decreases |toks| - pos, more
      {
        var step := Step(s);
        if step.Throw? {
          return Throw(step.error);
        }
        s, more := step.value.0, step.value.1;
      }
      if more {
        LoopAtEnd(known, toks, pos, s);
      }
      r := FinishExpr(s);
    }

    method FinishExpr(s: Stacks) returns (r: Outcome<Option<Expr>>)
      ensures Agrees(Finish(s, pos), r, pos)
    {
      var t := s;
      while t.ops != []
        invariant ReduceAll(t) == ReduceAll(s)
        decreases |t.ops|
      {
        var u := ApplyOperator(t.args, t.ops);
        if u.Throw? {
          return Throw(u.error);
        }
        t := u.value;
      }
      if |t.args| > 1 {
        return Throw(Malformed);
      }
      return Done(if |t.args| == 1 then Some(t.args[0]) else None);
    }

    /** One token, or one call, pipe or parenthesis; false at a token that ends the expression. */
    method Step(s: Stacks) returns (r: Outcome<(Stacks, bool)>)
      requires pos < |toks|
      modifies this`pos
      ensures r.Throw? ==> old(Rest(s)) == Throw(r.error)
      ensures r.Done? && r.value.1 ==> Ready() && old(pos) < pos && Rest(r.value.0) == old(Rest(s))
      ensures r.Done? && !r.value.1 ==> pos == old(pos) && Finish(r.value.0, pos) == old(Rest(s))
      decreases |toks| - pos, 1
    {
      hide Loop, Finish, Reduce, Arguments, IsLiteralToken, TokenOperator;
      var t := toks[pos];
      EofIsNeither();
      LoopStep(known, toks, pos, s);
      if IsLiteralToken(t) {
        GetNextToken();
        return Done((s.(args := s.args + [Literal(t)]), true));
      }
      var op := TokenOperator(t);
      if op.Some? {
        var u := PushOperator(s.args, s.ops, op.value);
        GetNextToken();
        return if u.Throw? then Throw(u.error) else Done((u.value, true));
      }
      if t.Id? && TokenAt(toks, pos + 1) == LeftParen {
        r := CallStep(s, t.name);
      } else if t.Id? {
        GetNextToken();
        return Done((s.(args := s.args + [Data(t.name)]), true));
      } else if t.Colon? {
        return Throw(UnexpectedColon);
      } else if t.LeftParen? {
        r := ParenStep(s);
      } else if t.Pipe? {
        r := PipeStep(s);
      } else {
        return Done((s, false));
      }
    }

    /** A call by name. */
    method CallStep(s: Stacks, name: string) returns (r: Outcome<(Stacks, bool)>)
      requires pos < |toks| && toks[pos] == Id(name) && TokenAt(toks, pos + 1) == LeftParen
      requires !IsLiteralToken(toks[pos]) && TokenOperator(toks[pos]).None?
      modifies this`pos
      ensures r.Throw? ==> old(Rest(s)) == Throw(r.error)
      ensures r.Done? ==> r.value.1 && Ready() && old(pos) < pos && Rest(r.value.0) == old(Rest(s))
      decreases |toks| - pos, 0
    {
      hide Loop, Finish, Reduce, Arguments, IsLiteralToken, TokenOperator;
      LoopAtCall(known, toks, pos, s, name);
      GetNextToken();
      var call := ParseCall(name, []);
      if call.Throw? {
        return Throw(call.error);
      }
      GetNextToken();
      return Done((s.(args := s.args + [call.value]), true));
    }

    /** An expression in parentheses. */
    method ParenStep(s: Stacks) returns (r: Outcome<(Stacks, bool)>)
      requires pos < |toks| && toks[pos] == LeftParen
      modifies this`pos
      ensures r.Throw? ==> old(Rest(s)) == Throw(r.error)
      ensures r.Done? ==> r.value.1 && Ready() && old(pos) < pos && Rest(r.value.0) == old(Rest(s))
      decreases |toks| - pos, 0
    {
      hide Loop, Finish, Reduce, Arguments;
      LoopAtParen(known, toks, pos, s);
      GetNextToken();
      var e := ParseExpr();
      if e.Throw? {
        return Throw(e.error);
      }
      if TokenAt(toks, pos) != RightParen {
        return Throw(RightParenExpected);
      }
      if e.value.None? {
        return Throw(EmptyParentheses);
      }
      GetNextToken();
      return Done((s.(args := s.args + [e.value.value]), true));
    }

    /** The arguments of a call; `args` are those that are known before. */
    method ParseArguments(first: seq<Expr>) returns (r: Outcome<seq<Expr>>)
      requires Ready()
      modifies this`pos
      ensures Agrees(Arguments(known, toks, old(pos), first), r, pos)
      ensures r.Done? ==> old(pos) <= pos <= |toks|
      decreases |toks| - pos, 3
    {
      hide Loop;
      var args := first;
      while true
        invariant Ready() && old(pos) <= pos
        invariant Arguments(known, toks, pos, args) == Arguments(known, toks, old(pos), first)
        decreases |toks| - pos
      {
        var e := ParseExpr();
        if e.Throw? {
          return Throw(e.error);
        }
        if e.value.None? {
          return Done(args);
        }
        args := args + [e.value.value];
        if TokenAt(toks, pos) != Comma {
          return Done(args);
        }
        GetNextToken();
      }
    }

    /** From the parenthesis that opens the arguments to the one that closes them. */
    method ParseCall(name: string, first: seq<Expr>) returns (r: Outcome<Expr>)
      requires pos < |toks| && toks[pos] == LeftParen
      modifies this`pos
      ensures match Arguments(known, toks, old(pos) + 1, first)
        case Throw(e) => r == Throw(e)
        case Done(p) =>
          if TokenAt(toks, p.1) != RightParen then r == Throw(RightParenExpected)
          else if !known(name, |p.0|) then r == Throw(UnknownFunction)
          else r == Done(Call(name, p.0)) && pos == p.1
      ensures r.Done? ==> old(pos) < pos < |toks|
      decreases |toks| - pos, 0
    {
      hide Arguments;
      GetNextToken();
      var args := ParseArguments(first);
      if args.Throw? {
        return Throw(args.error);
      }
      if TokenAt(toks, pos) != RightParen {
        return Throw(RightParenExpected);
      }
      if !known(name, |args.value|) {
        return Throw(UnknownFunction);
      }
      return Done(Call(name, args.value));
    }

    /** A pipe makes the last argument on the stack the first argument of a call. */
    method PipeStep(s: Stacks) returns (r: Outcome<(Stacks, bool)>)
      requires pos < |toks| && toks[pos] == Pipe
      modifies this`pos
      ensures r.Throw? ==> old(Rest(s)) == Throw(r.error)
      ensures r.Done? ==> r.value.1 && Ready() && old(pos) < pos && Rest(r.value.0) == old(Rest(s))
      decreases |toks| - pos, 0
    {
      hide Loop, Finish, Reduce, Arguments;
      LoopAtPipe(known, toks, pos, s);
      GetNextToken();
      var f := TokenAt(toks, pos);
      if !f.Id? {
        return Throw(FunctionNameExpected);
      }
      if s.args == [] {
        return Throw(PipeWithoutArgument);
      }
      var below, first := s.args[..|s.args| - 1], s.args[|s.args| - 1];
      var call: Outcome<Expr>;
      if TokenAt(toks, pos + 1) == LeftParen {
        GetNextToken();
        call := ParseCall(f.name, [first]);
      } else {
        call := if known(f.name, 1) then Done(Call(f.name, [first])) else Throw(UnknownFunction);
      }
      if call.Throw? {
        return Throw(call.error);
      }
      GetNextToken();
      return Done((s.(args := below + [call.value]), true));
    }

    // ---- Statements ----

    /** The result of reading a statement or a template, and the memory that it leaves. */
    ghost predicate Reached(spec: Outcome<(Memory, nat)>, r: Outcome<()>)
      reads this
    {
      match spec
      case Done(p) => r == Done(()) && State() == p.0 && pos == p.1
      case Throw(e) => r == Throw(e)
    }

    /** The condition of a statement has to end at its closing delimiter. */
    method ParseCondition(closing: Token) returns (r: Outcome<Option<Expr>>)
      requires Ready()
      modifies this`pos
      ensures Agrees(Condition(known, toks, old(pos), closing), r, pos)
      ensures r.Done? ==> Ready()
    {
      hide Loop;
      r := ParseExpr();
      if r.Done? && TokenAt(toks, pos) != closing {
        return Throw(StatementExpected);
      }
    }

    method AddNode(n: Node)
      modifies this`blocks
      ensures State() == old(State()).Add(n)
    {
      var nodes := if currentBlock in blocks then blocks[currentBlock] else [];
      blocks := blocks[currentBlock := nodes + [n]];
    }

    /** The node of a statement goes into the current block before its condition is read. */
    method OpenIfStatement(nested: bool)
      modifies this`blocks, this`statements, this`ifStack, this`currentBlock
      ensures State() == old(State()).OpenIf(None, nested)
    {
      hide Memory.Block, Memory.Add;
      var id, home := |statements|, currentBlock;
      AddNode(StatementNode(id));
      statements := statements + [If(None, home, nested, false)];
      ifStack := ifStack + [id];
      currentBlock := TrueOf(id);
    }

    method ParseIfStatement(closing: Token, nested: bool) returns (r: Outcome<()>)
      requires Ready() && State().Valid() && (nested ==> ifStack != [])
      modifies this
      ensures Reached(ParseIf(known, toks, old(pos), old(State()), closing, nested), r)
    {
      hide Condition, Memory.OpenIf, Memory.Valid;
      var id, home := |statements|, currentBlock;
      OpenIfStatement(nested);
      var e := ParseCondition(closing);
      if e.Throw? {
        return Throw(e.error);
      }
      FilledIf(old(State()), e.value, nested);
      statements := statements[id := If(e.value, home, nested, false)];
      return Done(());
    }

    method ParseElseStatement(closing: Token) returns (r: Outcome<()>)
      requires Ready() && State().Valid()
      modifies this
      ensures Reached(ParseElse(known, toks, old(pos), old(State()), closing), r)
    {
      hide ParseIf, Memory.Block;
      if ifStack == [] {
        return Throw(ElseWithoutIf);
      }
      var id := ifStack[|ifStack| - 1];
      statements := statements[id := statements[id].(hasFalse := true)];
      currentBlock := FalseOf(id);
      if TokenAt(toks, pos) == Id("if") {
        GetNextToken();
        r := ParseIfStatement(closing, true);
      } else {
        return Done(());
      }
    }

    /** The chain of else-if statements is popped together with the if that it belongs to. */
    method CloseIfStatement()
      requires State().Valid() && ifStack != []
      modifies this`ifStack, this`currentBlock
      ensures State() == old(State()).CloseIf()
    {
      ghost var m := State();
      m.PopNestedKeepsBottom(ifStack);
      while statements[ifStack[|ifStack| - 1]].nested
        invariant ifStack != [] && m.Ifs(ifStack) && !statements[ifStack[0]].nested
        invariant m.PopNested(ifStack) == m.PopNested(m.ifStack)
        decreases |ifStack|
      {
        ifStack := ifStack[..|ifStack| - 1];
      }
      currentBlock := statements[ifStack[|ifStack| - 1]].parent;
      ifStack := ifStack[..|ifStack| - 1];
    }

    method ParseForStatement(closing: Token) returns (r: Outcome<()>)
      requires Ready() && State().Valid()
      modifies this
      ensures Reached(ParseFor(known, toks, old(pos), old(State()), closing), r)
    {
      hide ParseForIn, Memory.Block, Memory.Valid;
      var first := TokenAt(toks, pos);
      if !first.Id? {
        return Throw(IdExpected);
      }
      GetNextToken();
      if TokenAt(toks, pos) == Comma {
        GetNextToken();
        var second := TokenAt(toks, pos);
        if !second.Id? {
          return Throw(IdExpected);
        }
        GetNextToken();
        r := ParseForCondition(Some(first.name), second.name, closing);
      } else {
        r := ParseForCondition(None, first.name, closing);
      }
    }

    method OpenForStatement(key: Option<string>, value: string)
      modifies this`blocks, this`statements, this`forStack, this`currentBlock
      ensures State() == old(State()).OpenFor(key, value, None)
    {
      hide Memory.Block, Memory.Add;
      var id, home := |statements|, currentBlock;
      AddNode(StatementNode(id));
      statements := statements + [For(key, value, None, home)];
      forStack := forStack + [id];
      currentBlock := BodyOf(id);
    }

    method ParseForCondition(key: Option<string>, value: string, closing: Token) returns (r: Outcome<()>)
      requires Ready() && State().Valid()
      modifies this
      ensures Reached(ParseForIn(known, toks, old(pos), old(State()), closing, key, value), r)
    {
      hide Condition, Memory.OpenFor, Memory.Valid;
      var id, home := |statements|, currentBlock;
      OpenForStatement(key, value);
      if TokenAt(toks, pos) != Id("in") {
        return Throw(InExpected);
      }
      GetNextToken();
      var e := ParseCondition(closing);
      if e.Throw? {
        return Throw(e.error);
      }
      FilledFor(old(State()), key, value, e.value);
      statements := statements[id := For(key, value, e.value, home)];
      return Done(());
    }

    method ParseSetStatement(closing: Token) returns (r: Outcome<()>)
      requires Ready() && State().Valid()
      modifies this
      ensures Reached(ParseSet(known, toks, old(pos), old(State()), closing), r)
    {
      hide Condition, Memory.Valid;
      var t := TokenAt(toks, pos);
      if !t.Id? {
        return Throw(IdExpected);
      }
      GetNextToken();
      AddNode(SetNode(t.name, None));
      if TokenAt(toks, pos) != Unknown("=") {
        return Throw(EqualsExpected);
      }
      GetNextToken();
      var e := ParseCondition(closing);
      if e.Throw? {
        return Throw(e.error);
      }
      ReplaceLast(SetNode(t.name, e.value));
      return Done(());
    }

    /** The node that was added last gets its expression. */
    method ReplaceLast(n: Node)
      requires State().Block(currentBlock) != []
      modifies this`blocks
      ensures forall m: Memory, was: Node :: old(State()) == m.Add(was) ==> State() == m.Add(n)
    {
      var nodes := blocks[currentBlock];
      blocks := blocks[currentBlock := nodes[|nodes| - 1 := n]];
      ReplaceAdded(old(State()), State(), n);
    }

    method ParseStmt(closing: Token) returns (r: Outcome<()>)
      requires Ready() && State().Valid()
      modifies this
      ensures Reached(ParseStatement(known, toks, old(pos), old(State()), closing), r)
    {
      hide ParseIf, ParseElse, ParseFor, ParseSet, Memory.CloseIf;
      var t := TokenAt(toks, pos);
      if !t.Id? {
        return Throw(StatementExpected);
      }
      GetNextToken();
      if t.name == "if" {
        r := ParseIfStatement(closing, false);
      } else if t.name == "else" {
        r := ParseElseStatement(closing);
      } else if t.name == "endif" {
        if ifStack == [] {
          return Throw(EndIfWithoutIf);
        }
        CloseIfStatement();
        return Done(());
      } else if t.name == "for" {
        r := ParseForStatement(closing);
      } else if t.name == "endfor" {
        if forStack == [] {
          return Throw(EndForWithoutFor);
        }
        currentBlock := statements[forStack[|forStack| - 1]].parent;
        forStack := forStack[..|forStack| - 1];
        return Done(());
      } else if t.name == "set" {
        r := ParseSetStatement(closing);
      } else if t.name in ["block", "endblock", "include", "extends"] {
        return Throw(NotModelled);
      } else {
        return Throw(StatementExpected);
      }
    }

    // ---- The template ----

    /** What the parser makes of the rest of the tokens. */
    ghost function Remaining(): Outcome<Memory>
      requires Ready() && State().Valid()
      reads this
    {
      ParseInto(known, toks, pos, State())
    }

    /** A statement with its closing delimiter, which the end of the input may replace after a line. */
    method ParseTag(closing: Token) returns (r: Outcome<()>)
      requires Ready() && State().Valid() && (closing == StatementClose || closing == LineStatementClose)
      modifies this
      ensures match ParseStatement(known, toks, old(pos), old(State()), closing)
        case Throw(e) => r == Throw(e)
        case Done(p) =>
          if TokenAt(toks, p.1) == closing || (closing.LineStatementClose? && TokenAt(toks, p.1) == Eof)
          then r == Done(()) && State() == p.0 && pos == p.1
          else r == Throw(CloseExpected)
    {
      hide ParseStatement, Memory.Valid;
      r := ParseStmt(closing);
      if r.Done? && TokenAt(toks, pos) != closing && !(closing.LineStatementClose? && TokenAt(toks, pos) == Eof) {
        return Throw(CloseExpected);
      }
    }

    method ParseOutput() returns (r: Outcome<()>)
      requires Ready() && State().Valid()
      modifies this
      ensures match ParseExpression(known, toks, old(pos))
        case Throw(e) => r == Throw(e)
        case Done(p) =>
          if TokenAt(toks, p.1) == ExpressionClose
          then r == Done(()) && State() == old(State()).Add(OutputNode(p.0)) && pos == p.1
          else r == Throw(CloseExpected)
      ensures r.Done? ==> old(pos) <= pos <= |toks|
    {
      hide Loop, Memory.Valid;
      AddNode(OutputNode(None));
      var e := ParseExpr();
      if e.Throw? {
        return Throw(e.error);
      }
      if TokenAt(toks, pos) != ExpressionClose {
        return Throw(CloseExpected);
      }
      ReplaceLast(OutputNode(e.value));
      return Done(());
    }

    /** One item of the template, up to its last token. */
    method ParseItem() returns (r: Outcome<()>)
      requires Ready() && State().Valid() && TokenAt(toks, pos) != Eof
      modifies this
      ensures match InjaStatements.ParseItem(known, toks, old(pos), old(State()))
        case Throw(e) => r == Throw(e)
        case Done(p) =>
          r == Done(()) && State() == p.0 && p.1 == if TokenAt(toks, pos) != Eof then pos + 1 else pos
    {
      hide ParseStatement, ParseExpression, Memory.Valid, Memory.Block;
      match TokenAt(toks, pos)
      case Text(text) =>
        AddNode(TextNode(text));
        return Done(());
      case StatementOpen =>
        GetNextToken();
        r := ParseTag(StatementClose);
      case LineStatementOpen =>
        GetNextToken();
        r := ParseTag(LineStatementClose);
      case ExpressionOpen =>
        GetNextToken();
        r := ParseOutput();
      case CommentOpen =>
        GetNextToken();
        return if TokenAt(toks, pos) != CommentClose then Throw(CommentCloseExpected) else Done(());
      case _ => return Throw(UnexpectedToken);
    }

    /** The whole template: the memory that is left is the one that `ParseInto` describes. */
    method ParseTemplate() returns (r: Outcome<()>)
      requires Ready() && State().Valid()
      modifies this
      ensures match old(Remaining())
        case Throw(e) => r == Throw(e)
        case Done(m) => r == Done(()) && State() == m
    {
      hide ParseInto, InjaStatements.ParseItem, Memory.Valid;
      while TokenAt(toks, pos) != Eof
        invariant Ready() && State().Valid()
        invariant Remaining() == old(Remaining())
        decreases |toks| - pos
      {
        IntoStep(known, toks, pos, State());
        r := ParseItem();
        if r.Throw? {
          return;
        }
        GetNextToken();
      }
      IntoAtEof(known, toks, pos, State());
      if ifStack != [] {
        return Throw(UnmatchedIf);
      }
      if forStack != [] {
        return Throw(UnmatchedFor);
      }
      return Done(());
    }
  }

  lemma IntoStep(known: Functions, toks: seq<Token>, i: nat, m: Memory)
    requires i <= |toks| && m.Valid() && TokenAt(toks, i) != Eof
    ensures match ParseItem(known, toks, i, m)
      case Throw(e) => ParseInto(known, toks, i, m) == Throw(e)
      case Done(p) =>
        p.0.Valid() && i < p.1 <= |toks| && ParseInto(known, toks, i, m) == ParseInto(known, toks, p.1, p.0)
  {
    hide ParseItem, Memory.Valid;
  }

  lemma IntoAtEof(known: Functions, toks: seq<Token>, i: nat, m: Memory)
    requires i <= |toks| && m.Valid() && TokenAt(toks, i) == Eof
    ensures ParseInto(known, toks, i, m)
      == if m.ifStack != [] then Throw(UnmatchedIf) else if m.forStack != [] then Throw(UnmatchedFor) else Done(m)
  {
  }

  /** The condition of a new statement is filled in after it has been read. */
  lemma FilledIf(m: Memory, e: Option<Expr>, nested: bool)
    ensures var r := m.OpenIf(None, nested);
      && |m.statements| < |r.statements|
      && r.(statements := r.statements[|m.statements| := If(e, m.current, nested, false)]) == m.OpenIf(e, nested)
  {
    hide Memory.Add;
  }

  lemma FilledFor(m: Memory, key: Option<string>, value: string, e: Option<Expr>)
    ensures var r := m.OpenFor(key, value, None);
      && |m.statements| < |r.statements|
      && r.(statements := r.statements[|m.statements| := For(key, value, e, m.current)]) == m.OpenFor(key, value, e)
  {
    hide Memory.Add;
  }

  lemma ReplaceAdded(a: Memory, b: Memory, n: Node)
    requires a.current in a.blocks && a.blocks[a.current] != []
    requires var nodes := a.blocks[a.current]; b == a.(blocks := a.blocks[a.current := nodes[|nodes| - 1 := n]])
    ensures forall m: Memory, was: Node :: a == m.Add(was) ==> b == m.Add(n)
  {
    forall m: Memory, was: Node | a == m.Add(was)
      ensures b == m.Add(n)
    {
      var nodes := a.blocks[a.current];
      assert nodes == m.Block(m.current) + [was];
      assert nodes[|nodes| - 1 := n] == m.Block(m.current) + [n];
      assert b.blocks == m.Add(n).blocks;
    }
  }

  /** What the loop of the expression parser does with a token that needs no others. */
  lemma LoopStep(known: Functions, toks: seq<Token>, i: nat, s: Stacks)
    requires i < |toks|
    ensures var t, op := toks[i], TokenOperator(toks[i]); var r := Loop(known, toks, i, s);
      if IsLiteralToken(t) then r == Loop(known, toks, i + 1, s.(args := s.args + [Literal(t)]))
      else if op.Some? then
        var u := Reduce(s, op.value);
        if u.Throw? then r == Throw(u.error)
        else r == Loop(known, toks, i + 1, u.value.(ops := u.value.ops + [op.value]))
      else if t.Id? then
        TokenAt(toks, i + 1) == LeftParen || r == Loop(known, toks, i + 1, s.(args := s.args + [Data(t.name)]))
      else if t.Colon? then r == Throw(UnexpectedColon)
      else t.LeftParen? || t.Pipe? || r == Finish(s, i)
  {
    hide Finish, Reduce, Arguments, IsLiteralToken, TokenOperator;
  }

  lemma EofIsNeither()
    ensures !IsLiteralToken(Eof) && TokenOperator(Eof).None?
  {
  }

  lemma LoopAtCall(known: Functions, toks: seq<Token>, i: nat, s: Stacks, name: string)
    requires i < |toks| && toks[i] == Id(name) && TokenAt(toks, i + 1) == LeftParen
    requires !IsLiteralToken(toks[i]) && TokenOperator(toks[i]).None?
    ensures AfterCall(known, toks, i + 1, name, [], s, Loop(known, toks, i, s))
  {
    hide Finish, Reduce, Arguments, IsLiteralToken, TokenOperator;
  }

  lemma LoopAtParen(known: Functions, toks: seq<Token>, i: nat, s: Stacks)
    requires i < |toks| && toks[i] == LeftParen
    ensures AfterParen(known, toks, i, s, Loop(known, toks, i, s))
  {
    hide Finish, Reduce, Arguments;
  }

  lemma LoopAtPipe(known: Functions, toks: seq<Token>, i: nat, s: Stacks)
    requires i < |toks| && toks[i] == Pipe
    ensures AfterPipe(known, toks, i, s, Loop(known, toks, i, s))
  {
    hide Finish, Reduce, Arguments;
  }

  /** The parenthesis of a call stands at `i`. */
  ghost predicate AfterCall(
      known: Functions, toks: seq<Token>, i: nat, name: string, first: seq<Expr>, s: Stacks,
      r: Outcome<(Option<Expr>, nat)>)
    requires i < |toks|
  {
    match Arguments(known, toks, i + 1, first)
    case Throw(e) => r == Throw(e)
    case Done(p) =>
      if TokenAt(toks, p.1) != RightParen then r == Throw(RightParenExpected)
      else if !known(name, |p.0|) then r == Throw(UnknownFunction)
      else r == Loop(known, toks, p.1 + 1, s.(args := s.args + [Call(name, p.0)]))
  }

  ghost predicate AfterParen(
      known: Functions, toks: seq<Token>, i: nat, s: Stacks, r: Outcome<(Option<Expr>, nat)>)
    requires i < |toks|
  {
    match Loop(known, toks, i + 1, Stacks([], []))
    case Throw(e) => r == Throw(e)
    case Done(p) =>
      if TokenAt(toks, p.1) != RightParen then r == Throw(RightParenExpected)
      else if p.0.None? then r == Throw(EmptyParentheses)
      else r == Loop(known, toks, p.1 + 1, s.(args := s.args + [p.0.value]))
  }

  ghost predicate AfterPipe(
      known: Functions, toks: seq<Token>, i: nat, s: Stacks, r: Outcome<(Option<Expr>, nat)>)
    requires i < |toks|
  {
    var f, n := TokenAt(toks, i + 1), |s.args|;
    if !f.Id? then r == Throw(FunctionNameExpected)
    else if n == 0 then r == Throw(PipeWithoutArgument)
    else if TokenAt(toks, i + 2) == LeftParen then
      AfterCall(known, toks, i + 2, f.name, [s.args[n - 1]], s.(args := s.args[..n - 1]), r)
    else if !known(f.name, 1) then r == Throw(UnknownFunction)
    else r == Loop(known, toks, i + 2, s.(args := s.args[..n - 1] + [Call(f.name, [s.args[n - 1]])]))
  }

  lemma LoopAtEnd(known: Functions, toks: seq<Token>, i: nat, s: Stacks)
    requires i == |toks|
    ensures Loop(known, toks, i, s) == Finish(s, i)
  {
    hide Finish;
  }

  /** The result of a method agrees with what the function says; an error leaves no position behind. */
  ghost predicate Agrees<T>(spec: Outcome<(T, nat)>, r: Outcome<T>, pos: nat) {
    match spec
    case Done(p) => r == Done(p.0) && pos == p.1
    case Throw(e) => r == Throw(e)
  }
}
