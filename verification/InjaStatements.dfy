/**
 Parser::parse_statement and Parser::parse_into (inja.hpp). The parser threads a cursor to the
 current block through stacks of open if and for statements. Here the nodes it allocates live in
 a memory: statements have addresses in order of allocation, and the blocks embedded in them are
 named after their statement.
 */
module InjaStatements {
  import opened Sequences
  import opened InjaSyntax
  import opened InjaExpression

  /** A block: the root of the template, or a member of the statement at an address. */
  datatype BlockRef = Top | TrueOf(id: nat) | FalseOf(id: nat) | BodyOf(id: nat)

  datatype Node =
    | TextNode(text: string)
    | OutputNode(expr: Option<Expr>)
    | SetNode(key: string, expr: Option<Expr>)
    | StatementNode(id: nat)

  datatype Statement =
    | If(condition: Option<Expr>, parent: BlockRef, nested: bool, hasFalse: bool)
    | For(key: Option<string>, value: string, condition: Option<Expr>, parent: BlockRef)

  datatype Memory = Memory(
    blocks: map<BlockRef, seq<Node>>,
    statements: seq<Statement>,
    current: BlockRef,
    ifStack: seq<nat>,
    forStack: seq<nat>)
  {
    function Block(ref: BlockRef): seq<Node> {
      if ref in blocks then blocks[ref] else []
    }

    predicate Ifs(stack: seq<nat>) {
      forall i {:trigger stack[i]} :: 0 <= i < |stack| ==> stack[i] < |statements| && statements[stack[i]].If?
    }

    predicate Fors(stack: seq<nat>) {
      forall i {:trigger stack[i]} :: 0 <= i < |stack| ==> stack[i] < |statements| && statements[stack[i]].For?
    }

    /** The stacks hold open statements, and an else-if is never at the bottom of the if stack. */
    predicate Valid() {
      Ifs(ifStack) && Fors(forStack) && (ifStack != [] ==> !statements[ifStack[0]].nested)
    }

    /** Append a node to the current block. */
    function Add(n: Node): Memory {
      this.(blocks := blocks[current := Block(current) + [n]])
    }

    /** A new if statement in the current block; its true branch becomes current. */
    function OpenIf(condition: Option<Expr>, nested: bool): Memory {
      var id := |statements|;
      Add(StatementNode(id)).(
        statements := statements + [If(condition, current, nested, false)],
        ifStack := ifStack + [id],
        current := TrueOf(id))
    }

    function OpenFor(key: Option<string>, value: string, condition: Option<Expr>): Memory {
      var id := |statements|;
      Add(StatementNode(id)).(
        statements := statements + [For(key, value, condition, current)],
        forStack := forStack + [id],
        current := BodyOf(id))
    }

    /** The innermost open if gets a false branch, which becomes current. */
    function TakeElse(): Memory
      requires Valid() && ifStack != []
    {
      var id := ifStack[|ifStack| - 1];
      this.(statements := statements[id := statements[id].(hasFalse := true)], current := FalseOf(id))
    }

    /** The stack without the else-if statements on top of it. */
    function PopNested(stack: seq<nat>): seq<nat>
      requires Ifs(stack)
    {
      if stack != [] && statements[stack[|stack| - 1]].nested then PopNested(stack[..|stack| - 1]) else stack
    }

    /** Close the whole chain of the innermost if and go back to the block that holds it. */
    function CloseIf(): Memory
      requires Valid() && ifStack != []
    {
      PopNestedKeepsBottom(ifStack);
      var stack := PopNested(ifStack);
      var id := stack[|stack| - 1];
      this.(current := statements[id].parent, ifStack := stack[..|stack| - 1])
    }

    function CloseFor(): Memory
      requires Valid() && forStack != []
    {
      var id := forStack[|forStack| - 1];
      this.(current := statements[id].parent, forStack := forStack[..|forStack| - 1])
    }

    /** Popping else-if statements never empties the stack. */
    lemma {:induction false} PopNestedKeepsBottom(stack: seq<nat>)
      requires Ifs(stack)
      requires stack != [] && !statements[stack[0]].nested
      ensures var r := PopNested(stack);
        && r != [] && r <= stack && !statements[r[|r| - 1]].nested
        && (forall i :: |r| <= i < |stack| ==> statements[stack[i]].nested)
    {
      if statements[stack[|stack| - 1]].nested {
        PopNestedKeepsBottom(stack[..|stack| - 1]);
      }
    }
  }

  const EMPTY_MEMORY := Memory(map[], [], Top, [], [])

  // ---- Tokens ----

  predicate Word(toks: seq<Token>, i: nat, name: string) {
    TokenAt(toks, i) == Id(name)
  }

  /** The condition of a statement, which must end at `closing`. */
  function Condition(known: Functions, toks: seq<Token>, i: nat, closing: Token): (r: Outcome<(Option<Expr>, nat)>)
    requires i <= |toks|
    ensures r.Done? ==> i <= r.value.1 <= |toks|
  {
    var (e, j) :- ParseExpression(known, toks, i);
    if TokenAt(toks, j) == closing then Done((e, j)) else Throw(StatementExpected)
  }

  type Progress = Outcome<(Memory, nat)>

  ghost predicate Advances(toks: seq<Token>, i: nat, r: Progress) {
    r.Done? ==> r.value.0.Valid() && i < r.value.1 <= |toks|
  }

  function ParseIf(known: Functions, toks: seq<Token>, i: nat, m: Memory, closing: Token, nested: bool): (r: Progress)
    requires i <= |toks| && m.Valid() && (nested ==> m.ifStack != [])
    ensures r.Done? ==> r.value.0.Valid() && i <= r.value.1 <= |toks|
  {
    var (e, j) :- Condition(known, toks, i, closing);
    Done((m.OpenIf(e, nested), j))
  }

  function ParseElse(known: Functions, toks: seq<Token>, i: nat, m: Memory, closing: Token): (r: Progress)
    requires i <= |toks| && m.Valid()
    ensures r.Done? ==> r.value.0.Valid() && i <= r.value.1 <= |toks|
  {
    if m.ifStack == [] then Throw(ElseWithoutIf)
    else if Word(toks, i, "if") then ParseIf(known, toks, i + 1, m.TakeElse(), closing, true)
    else Done((m.TakeElse(), i))
  }

  function ParseFor(known: Functions, toks: seq<Token>, i: nat, m: Memory, closing: Token): (r: Progress)
    requires i <= |toks| && m.Valid()
    ensures r.Done? ==> r.value.0.Valid() && i <= r.value.1 <= |toks|
  {
    var first := TokenAt(toks, i);
    if !first.Id? then Throw(IdExpected)
    else if TokenAt(toks, i + 1) == Comma then
      var second := TokenAt(toks, i + 2);
      if !second.Id? then Throw(IdExpected)
      else ParseForIn(known, toks, i + 3, m, closing, Some(first.name), second.name)
    else ParseForIn(known, toks, i + 1, m, closing, None, first.name)
  }

  function ParseForIn(known: Functions, toks: seq<Token>, i: nat, m: Memory, closing: Token,
      key: Option<string>, value: string): (r: Progress)
    requires i <= |toks| && m.Valid()
    ensures r.Done? ==> r.value.0.Valid() && i <= r.value.1 <= |toks|
  {
    if !Word(toks, i, "in") then Throw(InExpected)
    else
      var (e, j) :- Condition(known, toks, i + 1, closing);
      Done((m.OpenFor(key, value, e), j))
  }

  function ParseSet(known: Functions, toks: seq<Token>, i: nat, m: Memory, closing: Token): (r: Progress)
    requires i <= |toks| && m.Valid()
    ensures r.Done? ==> r.value.0.Valid() && i <= r.value.1 <= |toks|
  {
    var t := TokenAt(toks, i);
    if !t.Id? then Throw(IdExpected)
    else if TokenAt(toks, i + 1) != Unknown("=") then Throw(EqualsExpected)
    else
      var (e, j) :- Condition(known, toks, i + 2, closing);
      Done((m.Add(SetNode(t.name, e)), j))
  }

  /** parse_statement, from the first word of the statement to the token after it. */
  function ParseStatement(known: Functions, toks: seq<Token>, i: nat, m: Memory, closing: Token): (r: Progress)
    requires i <= |toks| && m.Valid()
    ensures Advances(toks, i, r)
  {
    var t := TokenAt(toks, i);
    if !t.Id? then Throw(StatementExpected)
    else if t.name == "if" then ParseIf(known, toks, i + 1, m, closing, false)
    else if t.name == "else" then ParseElse(known, toks, i + 1, m, closing)
    else if t.name == "endif" then
      if m.ifStack == [] then Throw(EndIfWithoutIf)
      else
        m.PopNestedKeepsBottom(m.ifStack);
        Done((m.CloseIf(), i + 1))
    else if t.name == "for" then ParseFor(known, toks, i + 1, m, closing)
    else if t.name == "endfor" then
      if m.forStack == [] then Throw(EndForWithoutFor) else Done((m.CloseFor(), i + 1))
    else if t.name == "set" then ParseSet(known, toks, i + 1, m, closing)
    else if t.name in ["block", "endblock", "include", "extends"] then Throw(NotModelled)
    else Throw(StatementExpected)
  }

  /** One turn of the loop of parse_into: an item of the template, up to the token after it; the end is no item. */
  function ParseItem(known: Functions, toks: seq<Token>, i: nat, m: Memory): (r: Progress)
    requires i <= |toks| && m.Valid()
    ensures Advances(toks, i, r)
  {
    match TokenAt(toks, i)
    case Text(text) => Done((m.Add(TextNode(text)), i + 1))
    case StatementOpen =>
      var (m', j) :- ParseStatement(known, toks, i + 1, m, StatementClose);
      if TokenAt(toks, j) != StatementClose then Throw(CloseExpected) else Done((m', j + 1))
    case LineStatementOpen =>
      var (m', j) :- ParseStatement(known, toks, i + 1, m, LineStatementClose);
      if TokenAt(toks, j) == LineStatementClose then Done((m', j + 1))
      else if TokenAt(toks, j) == Eof then Done((m', j))
      else Throw(CloseExpected)
    case ExpressionOpen =>
      var (e, j) :- ParseExpression(known, toks, i + 1);
      if TokenAt(toks, j) != ExpressionClose then Throw(CloseExpected)
      else Done((m.Add(OutputNode(e)), j + 1))
    case CommentOpen =>
      if TokenAt(toks, i + 1) != CommentClose then Throw(CommentCloseExpected) else Done((m, i + 2))
    case _ => Throw(UnexpectedToken)
  }

  /** The loop of parse_into, up to the end of the tokens. */
  function ParseInto(known: Functions, toks: seq<Token>, i: nat, m: Memory): (r: Outcome<Memory>)
    requires i <= |toks| && m.Valid()
    ensures r.Done? ==> r.value.Valid() && r.value.ifStack == [] && r.value.forStack == []
    decreases |toks| - i
  {
    if TokenAt(toks, i) == Eof then
      if m.ifStack != [] then Throw(UnmatchedIf)
      else if m.forStack != [] then Throw(UnmatchedFor)
      else Done(m)
    else
      var (m', j) :- ParseItem(known, toks, i, m);
      ParseInto(known, toks, j, m')
  }
}
